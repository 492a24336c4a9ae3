/** The `modules.alias` database (libs/kmod/src/aliases.rs). */
module Aliases {
  import opened Prelude
  import opened Text
  import Glob

  datatype Alias = Alias(pattern: Span, module_: Span)

  datatype AliasDb = AliasDb(text: string, entries: seq<Alias>)

  /** What one line says: device names matching `pattern` are driven by `module_`. */
  datatype Rule = Rule(pattern: string, module_: string)

  predicate HasAliasPrefix(l: string) {
    |l| >= 6 && l[0] == 'a' && l[1] == 'l' && l[2] == 'i' && l[3] == 'a' && l[4] == 's' && l[5] == ' '
  }

  /** Where the last space of a trimmed alias line is, after its prefix. */
  function Cut(l: string): (r: Option<nat>)
    ensures r.Some? ==> 6 <= r.value < |l|
  {
    var last := FindBefore(l, ' ', |l|);
    if HasAliasPrefix(l) && last.Some? && last.value >= 6 then last else None
  }

  function ParseTrimmed(l: string): Option<Rule> {
    match Cut(l) case None => None case Some(k) => Some(Rule(Trim(Sub(l, 6, k)), Trim(l[k + 1..])))
  }

  function ParseRule(line: string): Option<Rule> {
    ParseTrimmed(Trim(line))
  }

  /** The rules of a file, in order. */
  function Rules(text: string): seq<Rule> {
    FilterMap(ParseRule, Split(text, '\n'))
  }

  function TrimmedSpans(l: string, base: nat): Option<Alias> {
    match Cut(l)
    case None => None
    case Some(k) => Some(Alias(SpanAt(base + 6, Sub(l, 6, k)), SpanAt(base + 6 + |Sub(l, 6, k)| + 1, l[k + 1..])))
  }

  function ParseAlias(line: string, offset: nat): Option<Alias> {
    TrimmedSpans(Trim(line), offset + Lead(line))
  }

  function AliasView(text: string): Alias -> Rule {
    (a: Alias) => Rule(Slice(text, a.pattern), Slice(text, a.module_))
  }

  lemma PairDenotes(text: string, base: nat, pattern: string, module_: string)
    requires At(text, base, pattern) && At(text, base + |pattern| + 1, module_)
    ensures AliasView(text)(Alias(SpanAt(base, pattern), SpanAt(base + |pattern| + 1, module_)))
         == Rule(Trim(pattern), Trim(module_))
  {
    SpanRoundTrip(text, base, pattern);
    SpanRoundTrip(text, base + |pattern| + 1, module_);
  }

  lemma TrimmedDenotes(text: string, base: nat, l: string)
    requires At(text, base, l)
    ensures MapOption(AliasView(text), TrimmedSpans(l, base)) == ParseTrimmed(l)
  {
    if Cut(l).Some? {
      var k := Cut(l).value;
      assert At(text, base + 6, Sub(l, 6, k)) by { SubPieceAt(text, base, l, 6, k); }
      CutAt(text, base, l, k);
      PairDenotes(text, base + 6, Sub(l, 6, k), l[k + 1..]);
    }
  }

  lemma LineIsTrimmed(text: string, line: string, b: nat)
    requires MapOption(AliasView(text), TrimmedSpans(Trim(line), b + Lead(line))) == ParseTrimmed(Trim(line))
    ensures MapOption(AliasView(text), ParseAlias(line, b)) == ParseRule(line)
  {
  }

  lemma LineDenotes(text: string, line: string, b: nat)
    requires At(text, b, line)
    ensures MapOption(AliasView(text), ParseAlias(line, b)) == ParseRule(line)
  {
    TrimAt(text, b, line);
    TrimmedDenotes(text, b + Lead(line), Trim(line));
    LineIsTrimmed(text, line, b);
  }

  /** The spans of a parsed file slice back to its rules. */
  lemma FileDenotes(text: string)
    ensures MapSeq(AliasView(text), FilterMapAt(ParseAlias, Split(text, '\n'), 0)) == Rules(text)
  {
    forall line, b: nat | At(text, b, line) ensures MapOption(AliasView(text), ParseAlias(line, b)) == ParseRule(line) {
      LineDenotes(text, line, b);
    }
    SplitPiecesAt(text, 0, text, '\n');
    PiecesDenote(text, 0, Split(text, '\n'), ParseAlias, ParseRule, AliasView(text));
  }

  /** The trimmed line is the keyword, a pattern and, after the last space, a module. */
  ghost predicate LineIs(l: string, pattern: string, module_: string) {
    Lacks(module_, ' ', 0, |module_|) && l == "alias " + pattern + " " + module_
  }

  lemma LineCut(l: string, pattern: string, module_: string)
    requires LineIs(l, pattern, module_)
    ensures Cut(l) == Some(6 + |pattern|)
  {
    var k := 6 + |pattern|;
    FindsLast(l, ' ', |l|);
    assert l[k] == ' ';
    assert forall i :: k < i < |l| ==> l[i] == module_[i - k - 1];
  }

  lemma LineSlices(l: string, pattern: string, module_: string, k: nat)
    requires LineIs(l, pattern, module_) && k == 6 + |pattern|
    ensures k < |l| && Sub(l, 6, k) == pattern && l[k + 1..] == module_
  {
  }

  lemma LineParts(l: string, pattern: string, module_: string)
    requires LineIs(l, pattern, module_)
    ensures ParseTrimmed(l) == Some(Rule(Trim(pattern), Trim(module_)))
  {
    LineCut(l, pattern, module_);
    LineSlices(l, pattern, module_, 6 + |pattern|);
  }

  lemma LineHasParts(l: string) returns (pattern: string, module_: string)
    requires Cut(l).Some?
    ensures LineIs(l, pattern, module_)
  {
    var k := Cut(l).value;
    FindsLast(l, ' ', |l|);
    pattern, module_ := l[6..k], l[k + 1..];
    assert l[..6] == "alias ";
    assert l == l[..6] + l[6..k] + [l[k]] + l[k + 1..];
  }

  /** What a line says, and that it says nothing else. */
  lemma RuleMeans(line: string, rule: Rule)
    ensures ParseRule(line) == Some(rule) <==>
            exists pattern, module_ :: LineIs(Trim(line), pattern, module_)
                                       && rule == Rule(Trim(pattern), Trim(module_))
  {
    if ParseRule(line) == Some(rule) {
      var pattern, module_ := LineHasParts(Trim(line));
      LineParts(Trim(line), pattern, module_);
    }
    forall pattern, module_ | LineIs(Trim(line), pattern, module_) && rule == Rule(Trim(pattern), Trim(module_))
      ensures ParseRule(line) == Some(rule)
    {
      LineParts(Trim(line), pattern, module_);
    }
  }

  /** Not empty, and no white space at the ends. */
  predicate Ends(s: string) {
    s != "" && !IsSpace(s[0]) && !IsSpace(s[|s| - 1])
  }

  /** A rule that a line can carry. */
  predicate Writable(rule: Rule) {
    Ends(rule.pattern) && Ends(rule.module_) && Lacks(rule.module_, ' ', 0, |rule.module_|)
    && Lacks(rule.pattern, '\n', 0, |rule.pattern|) && Lacks(rule.module_, '\n', 0, |rule.module_|)
  }

  function WriteRule(rule: Rule): string {
    "alias " + rule.pattern + " " + rule.module_
  }

  /** A written rule reads back. */
  lemma RuleReadsBack(rule: Rule)
    requires Writable(rule)
    ensures ParseRule(WriteRule(rule)) == Some(rule)
  {
    TrimKeeps(WriteRule(rule));
    TrimKeeps(rule.pattern);
    TrimKeeps(rule.module_);
    LineParts(WriteRule(rule), rule.pattern, rule.module_);
  }

  lemma WrittenOnOneLine(rule: Rule)
    requires Writable(rule)
    ensures Lacks(WriteRule(rule), '\n', 0, |WriteRule(rule)|)
  {
    var l, k := WriteRule(rule), 6 + |rule.pattern|;
    assert forall i :: 6 <= i < k ==> l[i] == rule.pattern[i - 6];
    assert forall i :: k < i < |l| ==> l[i] == rule.module_[i - k - 1];
  }

  /** A written file of rules reads back, in order. */
  lemma RulesReadBack(rules: seq<Rule>)
    requires rules != [] && forall i :: 0 <= i < |rules| ==> Writable(rules[i])
    ensures Rules(Join(MapSeq(WriteRule, rules), '\n')) == rules
  {
    var lines := MapSeq(WriteRule, rules);
    forall i | 0 <= i < |rules|
      ensures ParseRule(lines[i]) == Some(rules[i]) && Lacks(lines[i], '\n', 0, |lines[i]|)
    {
      MapSeqAt(WriteRule, rules, i);
      RuleReadsBack(rules[i]);
      WrittenOnOneLine(rules[i]);
    }
    SplitUndoesJoin(lines, '\n');
    FilterMapOnto(ParseRule, lines, rules);
  }

  /** Rule `i` is the first whose pattern matches. */
  ghost predicate FirstMatch(rules: seq<Rule>, modalias: string, i: nat) {
    i < |rules| && Glob.Matches(rules[i].pattern, modalias)
    && forall j :: 0 <= j < i ==> !Glob.Matches(rules[j].pattern, modalias)
  }

  method ParseText(text: string) returns (db: AliasDb)
    ensures db.text == text && MapSeq(AliasView(text), db.entries) == Rules(text)
  {
    var entries := CollectPieces(ParseAlias, text, '\n', 0);
    FileDenotes(text);
    db := AliasDb(text, entries);
  }

  /** Finds exactly the module of the first rule of the file whose pattern means a match. */
  method FindModule(db: AliasDb, modalias: string) returns (r: Option<string>)
    requires MapSeq(AliasView(db.text), db.entries) == Rules(db.text)
    ensures r.Some? ==> exists i: nat :: FirstMatch(Rules(db.text), modalias, i) && Rules(db.text)[i].module_ == r.value
    ensures r.None? ==> forall rule :: rule in Rules(db.text) ==> !Glob.Matches(rule.pattern, modalias)
  {
    ghost var rules := Rules(db.text);
    for i := 0 to |db.entries|
      invariant forall j :: 0 <= j < i ==> !Glob.Matches(rules[j].pattern, modalias)
    {
      MapSeqAt(AliasView(db.text), db.entries, i);
      var matched := Glob.GlobMatchBytes(Slice(db.text, db.entries[i].pattern), modalias);
      if matched {
        assert FirstMatch(rules, modalias, i);
        return Some(Slice(db.text, db.entries[i].module_));
      }
    }
    return None;
  }
}
