/** The indexed `modules.dep` database (libs/kmod/src/deps.rs). */
module DepDb {
  import opened Prelude
  import opened Text
  import opened Order

  datatype Entry = Entry(name: Span, path: Span, deps: Span)

  datatype DepDb = DepDb(text: string, modules: seq<Entry>, depNames: seq<Span>)

  /** What one line of the file says, as plain strings. */
  datatype Module = Module(name: string, path: string, deps: seq<string>)

  // ---------- the reference meaning of a file ----------

  /** Where the file name starts: after the last slash. */
  function FileStart(path: string): (r: nat)
    ensures r <= |path|
  {
    match FindBefore(path, '/', |path|)
    case None => 0
    case Some(i) => i + 1
  }

  /** `s[from..to]` ends in `.ko`. */
  predicate IsKo(s: string, from: nat, to: nat)
    requires to <= |s|
  {
    from + 3 <= to && s[to - 3] == '.' && s[to - 2] == 'k' && s[to - 1] == 'o'
  }

  /** `s[from..to]` ends in `.ko.zst`. */
  predicate IsKoZst(s: string, from: nat, to: nat)
    requires to <= |s|
  {
    from + 7 <= to && IsKo(s, from, to - 4)
    && s[to - 4] == '.' && s[to - 3] == 'z' && s[to - 2] == 's' && s[to - 1] == 't'
  }

  /** Where the name of a module file ends, before its suffix. */
  function NameEnd(path: string): (r: Option<nat>)
    ensures r.Some? ==> FileStart(path) <= r.value <= |path|
  {
    if IsKoZst(path, FileStart(path), |path|) then Some(|path| - 7)
    else if IsKo(path, FileStart(path), |path|) then Some(|path| - 3)
    else None
  }

  function NameOf(path: string): Option<string> {
    match NameEnd(path) case None => None case Some(end) => Some(Sub(path, FileStart(path), end))
  }

  /** The canonical name the loader keys its set by. */
  function GetModuleName(path: string): Option<string> {
    match NameOf(path) case None => None case Some(name) => Some(Fold(name))
  }

  /** Dash-folded names: what both the sort and the search compare. */
  function Fold(name: string): (r: string)
    ensures |r| == |name|
  {
    seq(|name|, i requires 0 <= i < |name| => if name[i] == '-' then '_' else name[i])
  }

  function ModuleFrom(name: Option<string>, path: string, deps: seq<string>): Option<Module> {
    match name case None => None case Some(n) => Some(Module(n, path, deps))
  }

  /** What `path: deps` says; nothing unless the path names a module file. */
  function ParsePair(rawPath: string, pieces: seq<string>): Option<Module> {
    ModuleFrom(NameOf(Trim(rawPath)), Trim(rawPath), FilterMap(NameOf, pieces))
  }

  function ParseTrimmed(l: string): Option<Module> {
    match FindFrom(l, ':', 0)
    case None => None
    case Some(k) => ParsePair(l[..k], Split(l[k + 1..], ' '))
  }

  function ParseLine(line: string): Option<Module> {
    ParseTrimmed(Trim(line))
  }

  /** Everything a file says, line by line. */
  function Parse(text: string): seq<Module> {
    FilterMap(ParseLine, Split(text, '\n'))
  }

  // ---------- what these functions mean ----------

  /** `path` is the module file `name` in some directory. */
  ghost predicate IsModuleFile(path: string, name: string) {
    exists dir: string :: (dir == "" || dir[|dir| - 1] == '/')
                          && (path == dir + name + ".ko" || path == dir + name + ".ko.zst")
  }

  lemma FileStartMeans(path: string)
    ensures FileStart(path) == 0 || path[FileStart(path) - 1] == '/'
    ensures Lacks(path, '/', FileStart(path), |path|)
  {
    FindsLast(path, '/', |path|);
  }

  lemma FileStartIs(path: string, k: nat)
    requires k <= |path| && (k == 0 || path[k - 1] == '/') && Lacks(path, '/', k, |path|)
    ensures FileStart(path) == k
  {
    FileStartMeans(path);
  }

  lemma NameSpells(path: string, dir: string, name: string)
    requires NameOf(path) == Some(name) && dir == path[..FileStart(path)]
    ensures path == dir + name + ".ko" || path == dir + name + ".ko.zst"
  {
  }

  lemma SpelledName(path: string, dir: string, name: string)
    requires (dir == "" || dir[|dir| - 1] == '/') && Lacks(name, '/', 0, |name|)
    requires path == dir + name + ".ko" || path == dir + name + ".ko.zst"
    ensures NameOf(path) == Some(name)
  {
    assert forall k :: 0 <= k < |name| ==> path[|dir| + k] == name[k];
    FileStartIs(path, |dir|);
    assert path[|dir|..|dir| + |name|] == name;
  }

  /** A path has a name exactly if it is a module file of that name; the name holds no slash. */
  lemma NameMeans(path: string, name: string)
    ensures NameOf(path) == Some(name) <==> Lacks(name, '/', 0, |name|) && IsModuleFile(path, name)
  {
    if NameOf(path) == Some(name) {
      FileStartMeans(path);
      NameSpells(path, path[..FileStart(path)], name);
    }
    if Lacks(name, '/', 0, |name|) && IsModuleFile(path, name) {
      var dir: string :| (dir == "" || dir[|dir| - 1] == '/')
                         && (path == dir + name + ".ko" || path == dir + name + ".ko.zst");
      SpelledName(path, dir, name);
    }
  }

  /** Names are the same exactly if they differ in dashes for underscores only. */
  lemma FoldMeans(a: string, b: string)
    ensures Fold(a) == Fold(b) <==>
            |a| == |b| && forall i :: 0 <= i < |a| ==> a[i] == b[i] || {a[i], b[i]} == {'-', '_'}
  {
    if Fold(a) == Fold(b) {
      forall i | 0 <= i < |a| ensures a[i] == b[i] || {a[i], b[i]} == {'-', '_'} {
        assert Fold(a)[i] == Fold(b)[i];
      }
    }
    if |a| == |b| && forall i :: 0 <= i < |a| ==> a[i] == b[i] || {a[i], b[i]} == {'-', '_'} {
      forall i | 0 <= i < |a| ensures Fold(a)[i] == Fold(b)[i] {
        assert a[i] in {a[i], b[i]} && b[i] in {a[i], b[i]};
      }
    }
  }

  /** The trimmed line is a path, the first colon, and dependencies between spaces. */
  ghost predicate LineIs(l: string, raw: string, pieces: seq<string>) {
    pieces != [] && AllLack(pieces, ' ') && Lacks(raw, ':', 0, |raw|) && l == raw + [':'] + Join(pieces, ' ')
  }

  lemma LineParts(l: string, raw: string, pieces: seq<string>)
    requires LineIs(l, raw, pieces)
    ensures ParseTrimmed(l) == ParsePair(raw, pieces)
  {
    FirstSeparator(raw, Join(pieces, ' '), ':');
    SplitUndoesJoin(pieces, ' ');
  }

  lemma LineHasParts(l: string) returns (raw: string, pieces: seq<string>)
    requires ParseTrimmed(l).Some?
    ensures LineIs(l, raw, pieces)
  {
    var k := FindFrom(l, ':', 0).value;
    FindsFirst(l, ':', 0);
    raw, pieces := l[..k], Split(l[k + 1..], ' ');
    SplitJoins(l[k + 1..], ' ');
    CutIsJoin(l, k);
  }

  lemma PairMeans(raw: string, pieces: seq<string>, m: Module)
    ensures ParsePair(raw, pieces) == Some(m) <==>
            m.path == Trim(raw) && NameOf(m.path) == Some(m.name) && m.deps == FilterMap(NameOf, pieces)
  {
  }

  /** What a line says, and that it says nothing else: its path, that file's name, its dependencies' names in order. */
  lemma LineMeans(line: string, m: Module)
    ensures ParseLine(line) == Some(m) <==>
            exists raw, pieces :: LineIs(Trim(line), raw, pieces) && m.path == Trim(raw)
                                  && NameOf(m.path) == Some(m.name) && m.deps == FilterMap(NameOf, pieces)
  {
    if ParseLine(line) == Some(m) {
      var raw, pieces := LineHasParts(Trim(line));
      LineParts(Trim(line), raw, pieces);
      PairMeans(raw, pieces, m);
    }
    forall raw, pieces | LineIs(Trim(line), raw, pieces) && m.path == Trim(raw)
                         && NameOf(m.path) == Some(m.name) && m.deps == FilterMap(NameOf, pieces)
      ensures ParseLine(line) == Some(m)
    {
      LineParts(Trim(line), raw, pieces);
      PairMeans(raw, pieces, m);
    }
  }

  /** A path that a line can carry. */
  predicate Writable(path: string) {
    path != "" && forall i :: 0 <= i < |path| ==> !IsSpace(path[i]) && path[i] != ':'
  }

  /** A line as `depmod` writes it: the path, a colon, and each dependency after a space. */
  function WriteLine(path: string, deps: seq<string>): string {
    path + ":" + Join([""] + deps, ' ')
  }

  /** `paths` are module files with these names. */
  ghost predicate Named(paths: seq<string>, names: seq<string>) {
    |paths| == |names|
    && forall i :: 0 <= i < |paths| ==> Writable(paths[i]) && NameOf(paths[i]) == Some(names[i])
  }

  ghost predicate Spaceless(pieces: seq<string>) {
    forall i :: 0 <= i < |pieces| ==> pieces[i] == "" || Writable(pieces[i])
  }

  /** Joined words end in a word, and their only white space is the separator. */
  lemma {:induction false} JoinedWords(words: seq<string>)
    requires words != [] && Spaceless(words)
    ensures Lacks(Join(words, ' '), '\n', 0, |Join(words, ' ')|)
    ensures words[|words| - 1] != "" ==> Join(words, ' ') != "" && !IsSpace(Join(words, ' ')[|Join(words, ' ')| - 1])
  {
    if |words| > 1 {
      var rest := words[1..];
      JoinedWords(rest);
      assert rest[|rest| - 1] == words[|words| - 1];
    }
  }

  lemma WrittenEnds(path: string, deps: seq<string>)
    requires Writable(path) && Spaceless(deps) && (deps != [] ==> deps[|deps| - 1] != "")
    ensures var l := WriteLine(path, deps);
            l != "" && !IsSpace(l[0]) && !IsSpace(l[|l| - 1]) && Lacks(l, '\n', 0, |l|)
  {
    var words := [""] + deps;
    JoinedWords(words);
    if deps == [] { assert Join(words, ' ') == ""; } else { assert words[|words| - 1] == deps[|deps| - 1]; }
  }

  lemma WrittenIsLine(path: string, deps: seq<string>)
    requires Writable(path) && Spaceless(deps)
    ensures LineIs(WriteLine(path, deps), path, [""] + deps)
  {
  }

  lemma WrittenDeps(deps: seq<string>, names: seq<string>)
    requires Named(deps, names)
    ensures FilterMap(NameOf, [""] + deps) == names
  {
    FilterMapAppend(NameOf, [""], deps);
    FilterMapOnto(NameOf, deps, names);
  }

  /** A written line reads back. */
  lemma LineReadsBack(path: string, name: string, deps: seq<string>, names: seq<string>)
    requires Writable(path) && NameOf(path) == Some(name) && Named(deps, names)
    ensures ParseLine(WriteLine(path, deps)) == Some(Module(name, path, names))
    ensures Lacks(WriteLine(path, deps), '\n', 0, |WriteLine(path, deps)|)
  {
    WrittenEnds(path, deps);
    TrimKeeps(WriteLine(path, deps));
    WrittenIsLine(path, deps);
    LineParts(WriteLine(path, deps), path, [""] + deps);
    TrimKeeps(path);
    WrittenDeps(deps, names);
  }

  /** A module with the paths of its dependencies. */
  datatype Source = Source(path: string, deps: seq<string>)

  ghost predicate Says(source: Source, m: Module) {
    source.path == m.path && Writable(m.path) && NameOf(m.path) == Some(m.name) && Named(source.deps, m.deps)
  }

  /** A written file reads back: every line says its module, in order. */
  lemma FileReadsBack(sources: seq<Source>, ms: seq<Module>)
    requires ms != [] && |sources| == |ms| && forall i :: 0 <= i < |ms| ==> Says(sources[i], ms[i])
    ensures Parse(Join(MapSeq((s: Source) => WriteLine(s.path, s.deps), sources), '\n')) == ms
  {
    var write := (s: Source) => WriteLine(s.path, s.deps);
    var lines := MapSeq(write, sources);
    forall i | 0 <= i < |ms| ensures ParseLine(lines[i]) == Some(ms[i]) && Lacks(lines[i], '\n', 0, |lines[i]|) {
      MapSeqAt(write, sources, i);
      LineReadsBack(ms[i].path, ms[i].name, sources[i].deps, ms[i].deps);
    }
    SplitUndoesJoin(lines, '\n');
    FilterMapOnto(ParseLine, lines, ms);
  }

  /** The folded name that position `i` is searched by. */
  function KeyAt(ms: seq<Module>, i: nat): string
    requires i < |ms|
  {
    Fold(ms[i].name)
  }

  /** The last module with this folded name, by linear scan. */
  function LastIndexWithKey(ms: seq<Module>, key: string): (r: Option<nat>)
    ensures r.Some? ==> r.value < |ms| && KeyAt(ms, r.value) == key
                        && forall i :: r.value < i < |ms| ==> KeyAt(ms, i) != key
    ensures r.None? ==> forall i :: 0 <= i < |ms| ==> KeyAt(ms, i) != key
  {
    if ms == [] then None
    else
      var n := |ms| - 1;
      assert forall i :: 0 <= i < n ==> KeyAt(ms, i) == KeyAt(ms[..n], i);
      if KeyAt(ms, n) == key then Some(n) else LastIndexWithKey(ms[..n], key)
  }

  function LastWithKey(ms: seq<Module>, key: string): Option<Module> {
    match LastIndexWithKey(ms, key)
    case None => None
    case Some(i) => Some(ms[i])
  }

  // ---------- what the arena's spans denote ----------

  function SliceOf(text: string): Span -> string {
    span => Slice(text, span)
  }

  /** The window of the shared dependency table that belongs to one entry. */
  function Window(table: seq<Span>, window: Span): seq<Span> {
    var rest := table[if window.start <= |table| then window.start else |table|..];
    if window.len <= |rest| then rest[..window.len] else rest
  }

  function EntryView(text: string, table: seq<Span>): Entry -> Module {
    (e: Entry) => Module(Slice(text, e.name), Slice(text, e.path), MapSeq(SliceOf(text), Window(table, e.deps)))
  }

  function View(db: DepDb): seq<Module> {
    MapSeq(EntryView(db.text, db.depNames), db.modules)
  }

  // ---------- parsing a line into spans ----------

  function NameSpan(path: string, base: nat): Option<Span> {
    match NameEnd(path)
    case None => None
    case Some(end) => Some(Span(base + FileStart(path), end - FileStart(path)))
  }

  lemma NameSpanDenotes(text: string, base: nat, path: string)
    requires At(text, base, path)
    ensures MapOption(SliceOf(text), NameSpan(path, base)) == NameOf(path)
  {
    if NameEnd(path).Some? {
      SubPieceAt(text, base, path, FileStart(path), NameEnd(path).value);
    }
  }

  lemma DepSpansDenote(text: string, base: nat, pieces: seq<string>)
    requires PiecesAt(text, base, pieces)
    ensures MapSeq(SliceOf(text), FilterMapAt(NameSpan, pieces, base)) == FilterMap(NameOf, pieces)
  {
    forall piece, b | At(text, b, piece) ensures MapOption(SliceOf(text), NameSpan(piece, b)) == NameOf(piece) {
      NameSpanDenotes(text, b, piece);
    }
    PiecesDenote(text, base, pieces, NameSpan, NameOf, SliceOf(text));
  }

  /** One parsed line before its dependencies are placed in the shared table. */
  datatype Line = Line(name: Span, path: Span, deps: seq<Span>)

  function LineView(text: string): Line -> Module {
    (l: Line) => Module(Slice(text, l.name), Slice(text, l.path), MapSeq(SliceOf(text), l.deps))
  }

  function LineFrom(name: Option<Span>, path: Span, deps: seq<Span>): Option<Line> {
    match name case None => None case Some(n) => Some(Line(n, path, deps))
  }

  function PairSpans(rawPath: string, pieces: seq<string>, base: nat): Option<Line> {
    LineFrom(NameSpan(Trim(rawPath), base), SpanAt(base, rawPath),
             FilterMapAt(NameSpan, pieces, base + |rawPath| + 1))
  }

  function TrimmedSpans(l: string, base: nat): Option<Line> {
    match FindFrom(l, ':', 0)
    case None => None
    case Some(k) => PairSpans(l[..k], Split(l[k + 1..], ' '), base)
  }

  function LineSpans(line: string, offset: nat): Option<Line> {
    TrimmedSpans(Trim(line), offset + Lead(line))
  }

  /** A line of spans that denote a name, a path and dependencies denotes the module made of these. */
  lemma LineFromDenotes(text: string, line: Option<Line>, name: Option<Span>, path: Span, deps: seq<Span>,
                        name': Option<string>, path': string, deps': seq<string>)
    requires line == LineFrom(name, path, deps) && MapOption(SliceOf(text), name) == name'
    requires Slice(text, path) == path' && MapSeq(SliceOf(text), deps) == deps'
    ensures MapOption(LineView(text), line) == ModuleFrom(name', path', deps')
  {
  }

  /** The name is located from the start of the line, so this needs a path that is not indented. */
  lemma PathDenotes(text: string, base: nat, rawPath: string)
    requires At(text, base, rawPath) && Lead(rawPath) == 0
    ensures Slice(text, SpanAt(base, rawPath)) == Trim(rawPath)
    ensures MapOption(SliceOf(text), NameSpan(Trim(rawPath), base)) == NameOf(Trim(rawPath))
  {
    SpanRoundTrip(text, base, rawPath);
    TrimAt(text, base, rawPath);
    NameSpanDenotes(text, base, Trim(rawPath));
  }

  lemma PairDenotes(text: string, base: nat, rawPath: string, pieces: seq<string>)
    requires At(text, base, rawPath) && PiecesAt(text, base + |rawPath| + 1, pieces) && Lead(rawPath) == 0
    ensures MapOption(LineView(text), PairSpans(rawPath, pieces, base)) == ParsePair(rawPath, pieces)
  {
    var rest := base + |rawPath| + 1;
    PathDenotes(text, base, rawPath);
    DepSpansDenote(text, rest, pieces);
    LineFromDenotes(text, PairSpans(rawPath, pieces, base), NameSpan(Trim(rawPath), base), SpanAt(base, rawPath),
                    FilterMapAt(NameSpan, pieces, rest), NameOf(Trim(rawPath)), Trim(rawPath),
                    FilterMap(NameOf, pieces));
  }

  lemma TrimmedDenotes(text: string, base: nat, l: string)
    requires At(text, base, l) && Lead(l) == 0
    ensures MapOption(LineView(text), TrimmedSpans(l, base)) == ParseTrimmed(l)
  {
    if FindFrom(l, ':', 0).Some? {
      var k := FindFrom(l, ':', 0).value;
      CutAt(text, base, l, k);
      PrefixHasNoLead(l, k);
      SplitPiecesAt(text, base + k + 1, l[k + 1..], ' ');
      PairDenotes(text, base, l[..k], Split(l[k + 1..], ' '));
    }
  }

  lemma TrimmedInPlace(text: string, offset: nat, line: string)
    requires At(text, offset, line)
    ensures At(text, offset + Lead(line), Trim(line)) && Lead(Trim(line)) == 0
  {
    TrimAt(text, offset, line);
    TrimmedHasNoLead(line);
  }

  /** A line says what it says once trimmed, `l`, located where that begins. */
  lemma LineIsTrimmed(text: string, offset: nat, line: string, base: nat, l: string)
    requires l == Trim(line) && base == offset + Lead(line) && At(text, base, l) && Lead(l) == 0
    ensures MapOption(LineView(text), LineSpans(line, offset)) == ParseLine(line)
  {
    TrimmedDenotes(text, base, l);
  }

  /** The spans of a line slice back to what the line says. */
  lemma LineDenotes(text: string, offset: nat, line: string)
    requires At(text, offset, line)
    ensures MapOption(LineView(text), LineSpans(line, offset)) == ParseLine(line)
  {
    TrimmedInPlace(text, offset, line);
    LineIsTrimmed(text, offset, line, offset + Lead(line), Trim(line));
  }

  /** All the spans of a file slice back to what its lines say. */
  lemma FileDenotes(text: string)
    ensures MapSeq(LineView(text), FilterMapAt(LineSpans, Split(text, '\n'), 0)) == Parse(text)
  {
    forall line, b | At(text, b, line) ensures MapOption(LineView(text), LineSpans(line, b)) == ParseLine(line) {
      LineDenotes(text, b, line);
    }
    SplitPiecesAt(text, 0, text, '\n');
    PiecesDenote(text, 0, Split(text, '\n'), LineSpans, ParseLine, LineView(text));
  }

  // ---------- the shared dependency table ----------

  datatype Tables = Tables(modules: seq<Entry>, depNames: seq<Span>)

  function Push(t: Tables, l: Line): Tables {
    Tables(t.modules + [Entry(l.name, l.path, Span(|t.depNames|, |l.deps|))], t.depNames + l.deps)
  }

  function PushLines(t: Tables, ls: seq<Line>): Tables
    decreases |ls|
  {
    if ls == [] then t else PushLines(Push(t, ls[0]), ls[1..])
  }

  predicate InBounds(t: Tables) {
    forall i :: 0 <= i < |t.modules| ==> t.modules[i].deps.start + t.modules[i].deps.len <= |t.depNames|
  }

  lemma WindowSurvivesGrowth(table: seq<Span>, more: seq<Span>, w: Span)
    requires w.start + w.len <= |table|
    ensures Window(table + more, w) == Window(table, w)
  {
  }

  lemma {:induction false} ViewsSurviveGrowth(text: string, table: seq<Span>, more: seq<Span>, es: seq<Entry>)
    requires forall e :: e in es ==> e.deps.start + e.deps.len <= |table|
    ensures MapSeq(EntryView(text, table + more), es) == MapSeq(EntryView(text, table), es)
  {
    if es != [] {
      WindowSurvivesGrowth(table, more, es[0].deps);
      ViewsSurviveGrowth(text, table, more, es[1..]);
    }
  }

  function TableView(text: string, t: Tables): seq<Module> {
    MapSeq(EntryView(text, t.depNames), t.modules)
  }

  lemma PushDenotes(text: string, t: Tables, l: Line)
    requires InBounds(t)
    ensures InBounds(Push(t, l))
    ensures TableView(text, Push(t, l)) == TableView(text, t) + [LineView(text)(l)]
  {
    var table := t.depNames + l.deps;
    var e := Entry(l.name, l.path, Span(|t.depNames|, |l.deps|));
    assert Window(table, e.deps) == l.deps;
    ViewsSurviveGrowth(text, t.depNames, l.deps, t.modules);
    MapSeqAppend(EntryView(text, table), t.modules, [e]);
    assert MapSeq(EntryView(text, table), [e]) == [EntryView(text, table)(e)];
  }

  /** Sharing one dependency table loses nothing: every entry still denotes its own line. */
  lemma {:induction false} PushLinesDenote(text: string, t: Tables, ls: seq<Line>)
    requires InBounds(t)
    ensures TableView(text, PushLines(t, ls)) == TableView(text, t) + MapSeq(LineView(text), ls)
    decreases |ls|
  {
    if ls != [] {
      var next := Push(t, ls[0]);
      PushDenotes(text, t, ls[0]);
      PushLinesDenote(text, next, ls[1..]);
      calc {
        TableView(text, PushLines(t, ls));
        TableView(text, PushLines(next, ls[1..]));
        TableView(text, next) + MapSeq(LineView(text), ls[1..]);
        (TableView(text, t) + [LineView(text)(ls[0])]) + MapSeq(LineView(text), ls[1..]);
        { AppendAssociates(TableView(text, t), [LineView(text)(ls[0])], MapSeq(LineView(text), ls[1..])); }
        TableView(text, t) + MapSeq(LineView(text), ls);
      }
    }
  }

  /** Appends parsed lines to the tables one by one. */
  method PushModules(ls: seq<Line>) returns (t: Tables)
    ensures t == PushLines(Tables([], []), ls)
  {
    t := Tables([], []);
    for i := 0 to |ls|
      invariant PushLines(t, ls[i..]) == PushLines(Tables([], []), ls)
    {
      assert ls[i..][1..] == ls[i + 1..];
      var start := |t.depNames|;
      var depNames := t.depNames + ls[i].deps;
      t := Tables(t.modules + [Entry(ls[i].name, ls[i].path, Span(start, |depNames| - start))], depNames);
    }
  }

  // ---------- the sorted index ----------

  function EntryLe(text: string): (Entry, Entry) -> bool {
    (a: Entry, b: Entry) => LexLe(Fold(Slice(text, a.name)), Fold(Slice(text, b.name)))
  }

  function ModuleLe(): (Module, Module) -> bool {
    (a: Module, b: Module) => LexLe(Fold(a.name), Fold(b.name))
  }

  lemma ModuleLePreorder()
    ensures TotalPreorder(ModuleLe())
  {
    forall a, b ensures ModuleLe()(a, b) || ModuleLe()(b, a) { LexLeTotal(Fold(a.name), Fold(b.name)); }
    forall a, b, c | ModuleLe()(a, b) && ModuleLe()(b, c) ensures ModuleLe()(a, c) {
      LexLeTransitive(Fold(a.name), Fold(b.name), Fold(c.name));
    }
  }

  /** The modules a file declares, in the order the index keeps them. */
  function Indexed(text: string): seq<Module> {
    SortBy(Parse(text), ModuleLe())
  }

  ghost predicate SortedByKey(ms: seq<Module>) {
    forall i, j :: 0 <= i < j < |ms| ==> LexLe(KeyAt(ms, i), KeyAt(ms, j))
  }

  lemma SortedModules(ms: seq<Module>)
    ensures SortedByKey(SortBy(ms, ModuleLe()))
  {
    ModuleLePreorder();
    SortSorts(ms, ModuleLe());
    var s := SortBy(ms, ModuleLe());
    forall i, j | 0 <= i < j < |s| ensures LexLe(KeyAt(s, i), KeyAt(s, j)) { assert ModuleLe()(s[i], s[j]); }
  }

  predicate NameMatchesPath(m: Module) {
    NameOf(m.path) == Some(m.name)
  }

  /** Every module's name is the one its own path gives. */
  ghost predicate NamesMatchPaths(ms: seq<Module>) {
    forall m :: m in ms ==> NameMatchesPath(m)
  }

  lemma ParsedNameMatches(line: string)
    ensures ParseLine(line).Some? ==> NameMatchesPath(ParseLine(line).value)
  {
  }

  lemma ParsedNamesMatch(text: string)
    ensures NamesMatchPaths(Parse(text))
  {
    forall line ensures ParseLine(line).Some? ==> NameMatchesPath(ParseLine(line).value) {
      ParsedNameMatches(line);
    }
    FilterMapAll(ParseLine, Split(text, '\n'), NameMatchesPath);
  }

  lemma SortedNamesMatch(ms: seq<Module>)
    requires NamesMatchPaths(ms)
    ensures NamesMatchPaths(SortBy(ms, ModuleLe()))
  {
    SortKeepsElements(ms, ModuleLe());
    SameElements(SortBy(ms, ModuleLe()), ms);
  }

  lemma SortedTablesDenote(text: string, ls: seq<Line>, t: Tables)
    requires t == PushLines(Tables([], []), ls)
    ensures View(DepDb(text, SortBy(t.modules, EntryLe(text)), t.depNames))
         == SortBy(MapSeq(LineView(text), ls), ModuleLe())
  {
    PushLinesDenote(text, Tables([], []), ls);
    assert TableView(text, Tables([], [])) == [];
    assert [] + MapSeq(LineView(text), ls) == MapSeq(LineView(text), ls);
    SortMapped(EntryView(text, t.depNames), t.modules, EntryLe(text), ModuleLe());
  }

  /** The index denotes exactly the file's modules, stably sorted by folded name. */
  method Index(text: string) returns (db: DepDb)
    ensures db.text == text && View(db) == Indexed(text)
    ensures SortedByKey(View(db)) && NamesMatchPaths(View(db))
  {
    var ls := CollectPieces(LineSpans, text, '\n', 0);
    FileDenotes(text);
    var t := PushModules(ls);
    SortedTablesDenote(text, ls, t);
    SortedModules(Parse(text));
    ParsedNamesMatch(text);
    SortedNamesMatch(Parse(text));
    db := DepDb(text, SortBy(t.modules, EntryLe(text)), t.depNames);
  }

  // ---------- binary search ----------

  lemma SearchEnds(ms: seq<Module>, key: string, base: nat)
    requires SortedByKey(ms) && base < |ms|
    requires forall i :: base < i < |ms| ==> !LexLe(KeyAt(ms, i), key)
    requires base > 0 ==> LexLe(KeyAt(ms, base), key)
    ensures LastIndexWithKey(ms, key) == if KeyAt(ms, base) == key then Some(base) else None
  {
    LexLeTotal(key, key);
    if KeyAt(ms, base) != key {
      forall i | 0 <= i < base ensures KeyAt(ms, i) != key {
        if KeyAt(ms, i) == key { LexLeAntisymmetric(key, KeyAt(ms, base)); }
      }
    }
  }

  lemma AboveStaysAbove(ms: seq<Module>, key: string, mid: nat)
    requires SortedByKey(ms) && mid < |ms| && !LexLe(KeyAt(ms, mid), key)
    ensures forall i :: mid <= i < |ms| ==> !LexLe(KeyAt(ms, i), key)
  {
    forall i | mid < i < |ms| ensures !LexLe(KeyAt(ms, i), key) {
      if LexLe(KeyAt(ms, i), key) {
        LexLeTransitive(KeyAt(ms, mid), KeyAt(ms, i), key);
      }
    }
  }

  /** The key of the entry at `i`, read through the arena. */
  function EntryKey(db: DepDb, i: nat): (r: string)
    requires i < |db.modules|
    ensures r == KeyAt(View(db), i)
  {
    MapSeqAt(EntryView(db.text, db.depNames), db.modules, i);
    Fold(Slice(db.text, db.modules[i].name))
  }

  /** Binary search agrees with a linear scan, and among duplicates finds the last. */
  method Find(db: DepDb, name: string) returns (r: Option<nat>)
    requires SortedByKey(View(db))
    ensures r == LastIndexWithKey(View(db), Fold(name))
  {
    ghost var ms := View(db);
    var key := Fold(name);
    var size := |db.modules|;
    if size == 0 {
      return None;
    }
    var base: nat := 0;
    while size > 1
      invariant 1 <= size && base + size <= |ms|
      invariant forall i :: base + size <= i < |ms| ==> !LexLe(KeyAt(ms, i), key)
      invariant base > 0 ==> LexLe(KeyAt(ms, base), key)
    {
      var half := size / 2;
      var mid := base + half;
      if LexLe(EntryKey(db, mid), key) {
        base := mid;
      } else {
        AboveStaysAbove(ms, key, mid);
      }
      size := size - half;
    }
    SearchEnds(ms, key, base);
    r := if EntryKey(db, base) == key then Some(base) else None;
  }

  // ---------- the index answers for the file ----------

  lemma LastWithKeyCons(m: Module, ms: seq<Module>, key: string)
    ensures LastWithKey([m] + ms, key) ==
            if LastWithKey(ms, key).Some? then LastWithKey(ms, key)
            else if Fold(m.name) == key then Some(m) else None
    decreases |ms|
  {
    if ms != [] {
      var n := |ms| - 1;
      assert ([m] + ms)[..n + 1] == [m] + ms[..n];
      LastWithKeyCons(m, ms[..n], key);
    } else {
      assert [m] + ms == [m];
    }
  }

  lemma {:induction false} InsertIsStable(m: Module, ms: seq<Module>, key: string)
    ensures LastWithKey(Insert(m, ms, ModuleLe()), key) == LastWithKey([m] + ms, key)
  {
    if ms != [] && !ModuleLe()(m, ms[0]) {
      assert Fold(m.name) != Fold(ms[0].name) by { LexLeTotal(Fold(m.name), Fold(m.name)); }
      InsertIsStable(m, ms[1..], key);
      assert ms == [ms[0]] + ms[1..];
      LastWithKeyCons(ms[0], Insert(m, ms[1..], ModuleLe()), key);
      LastWithKeyCons(m, ms[1..], key);
      LastWithKeyCons(ms[0], ms[1..], key);
      LastWithKeyCons(m, ms, key);
    } else if ms == [] {
      assert [m] + ms == [m];
    }
  }

  /** Sorting does not change which module a name denotes, duplicates included. */
  lemma {:induction false} SortIsStable(ms: seq<Module>, key: string)
    ensures LastWithKey(SortBy(ms, ModuleLe()), key) == LastWithKey(ms, key)
  {
    if ms != [] {
      SortIsStable(ms[1..], key);
      InsertIsStable(ms[0], SortBy(ms[1..], ModuleLe()), key);
      LastWithKeyCons(ms[0], SortBy(ms[1..], ModuleLe()), key);
      LastWithKeyCons(ms[0], ms[1..], key);
      assert ms == [ms[0]] + ms[1..];
    }
  }

  /** A name denotes the same module in the index as in a linear scan of the lines, last match winning. */
  lemma IndexAnswersForFile(text: string, name: string)
    ensures LastWithKey(Indexed(text), Fold(name)) == LastWithKey(Parse(text), Fold(name))
  {
    SortIsStable(Parse(text), Fold(name));
  }

  method GetPath(db: DepDb, name: string) returns (path: Option<string>)
    requires SortedByKey(View(db))
    ensures path == match LastWithKey(View(db), Fold(name))
                    case None => None
                    case Some(m) => Some(m.path)
  {
    var found := Find(db, name);
    if found.None? {
      return None;
    }
    MapSeqAt(EntryView(db.text, db.depNames), db.modules, found.value);
    path := Some(Slice(db.text, db.modules[found.value].path));
  }
}
