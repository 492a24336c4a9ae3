/** Variable substitution in service commands (init/granola/src/loader.rs, `substitute_vars`). */
module Vars {
  /** A piece of a command: a plain character, or a reference `$name`. */
  datatype Piece = Plain(c: char) | Var(name: string)

  predicate IsNameChar(c: char) {
    '0' <= c <= '9' || 'a' <= c <= 'z' || 'A' <= c <= 'Z' || c == '_'
  }

  /** How many name characters a text starts with. */
  function NameLen(text: string): (n: nat)
    ensures n <= |text|
    ensures forall k :: 0 <= k < n ==> IsNameChar(text[k])
    ensures n < |text| ==> !IsNameChar(text[n])
  {
    if text != "" && IsNameChar(text[0]) then 1 + NameLen(text[1..]) else 0
  }

  /** The pieces of a command, each name as long as possible. */
  function Pieces(text: string): seq<Piece> {
    if text == "" then []
    else if text[0] == '$' then
      var n := NameLen(text[1..]);
      [Var(text[1..][..n])] + Pieces(text[1..][n..])
    else [Plain(text[0])] + Pieces(text[1..])
  }

  function Spelled(p: Piece): string {
    match p case Plain(c) => [c] case Var(name) => "$" + name
  }

  /** What one piece becomes; an unknown name stays as it was. */
  function Replaced(p: Piece, env: map<string, string>): string {
    if p.Var? && p.name in env then env[p.name] else Spelled(p)
  }

  function Render(ps: seq<Piece>, env: map<string, string>): string {
    if ps == [] then "" else Replaced(ps[0], env) + Render(ps[1..], env)
  }

  predicate PieceOk(p: Piece) {
    match p case Plain(c) => c != '$' case Var(name) => forall k :: 0 <= k < |name| ==> IsNameChar(name[k])
  }

  /** Names are made of name characters and no name could be longer. */
  predicate WellSplit(ps: seq<Piece>) {
    ps == [] ||
    (PieceOk(ps[0]) && WellSplit(ps[1..])
     && (ps[0].Var? && |ps| > 1 && ps[1].Plain? ==> !IsNameChar(ps[1].c)))
  }

  // ---------- the pieces are the text, and the only way to split it ----------

  lemma NameLenIs(text: string, n: nat)
    requires n <= |text| && (forall k :: 0 <= k < n ==> IsNameChar(text[k])) && (n < |text| ==> !IsNameChar(text[n]))
    ensures NameLen(text) == n
  {
  }

  lemma VarHead(name: string, rest: string)
    requires PieceOk(Var(name)) && (rest != "" ==> !IsNameChar(rest[0]))
    ensures Pieces("$" + name + rest) == [Var(name)] + Pieces(rest)
  {
    var text := "$" + name + rest;
    assert text[1..] == name + rest;
    NameLenIs(name + rest, |name|);
    assert (name + rest)[..|name|] == name && (name + rest)[|name|..] == rest;
  }

  lemma PlainHead(c: char, rest: string)
    requires c != '$'
    ensures Pieces([c] + rest) == [Plain(c)] + Pieces(rest)
  {
    assert ([c] + rest)[1..] == rest;
  }

  lemma RenderCons(p: Piece, ps: seq<Piece>, env: map<string, string>)
    ensures Render([p] + ps, env) == Replaced(p, env) + Render(ps, env)
  {
    assert ([p] + ps)[1..] == ps;
  }

  lemma ConsSplits(p: Piece, ps: seq<Piece>)
    requires WellSplit(ps) && PieceOk(p) && (p.Var? && ps != [] && ps[0].Plain? ==> !IsNameChar(ps[0].c))
    ensures WellSplit([p] + ps)
  {
    assert ([p] + ps)[1..] == ps;
  }

  /** The pieces of a text spell it, with names as long as possible. */
  ghost predicate SplitsWell(text: string) {
    Render(Pieces(text), map[]) == text && WellSplit(Pieces(text))
  }

  lemma FirstPiece(text: string)
    requires Render(Pieces(text), map[]) == text && Pieces(text) != [] && Pieces(text)[0].Plain?
    ensures text != "" && Pieces(text)[0].c == text[0]
  {
  }

  lemma VarSplitsWell(name: string, rest: string)
    requires SplitsWell(rest) && PieceOk(Var(name)) && (rest != "" ==> !IsNameChar(rest[0]))
    ensures SplitsWell("$" + name + rest)
  {
    VarHead(name, rest);
    RenderCons(Var(name), Pieces(rest), map[]);
    if Pieces(rest) != [] && Pieces(rest)[0].Plain? { FirstPiece(rest); }
    ConsSplits(Var(name), Pieces(rest));
  }

  lemma PlainSplitsWell(c: char, rest: string)
    requires SplitsWell(rest) && c != '$'
    ensures SplitsWell([c] + rest)
  {
    PlainHead(c, rest);
    RenderCons(Plain(c), Pieces(rest), map[]);
    ConsSplits(Plain(c), Pieces(rest));
  }

  lemma CutVar(text: string) returns (name: string, rest: string)
    requires text != "" && text[0] == '$'
    ensures text == "$" + name + rest && PieceOk(Var(name)) && (rest != "" ==> !IsNameChar(rest[0]))
  {
    var n := NameLen(text[1..]);
    name, rest := text[1..][..n], text[1..][n..];
  }

  lemma {:induction false} PiecesSpell(text: string)
    ensures SplitsWell(text)
    decreases |text|
  {
    if text != "" && text[0] == '$' {
      var name, rest := CutVar(text);
      PiecesSpell(rest);
      VarSplitsWell(name, rest);
    } else if text != "" {
      var c, rest := text[0], text[1..];
      assert text == [c] + rest;
      PiecesSpell(rest);
      PlainSplitsWell(c, rest);
    }
  }

  lemma RenderStarts(ps: seq<Piece>)
    requires ps != []
    ensures var text := Render(ps, map[]); text != "" && text[0] == if ps[0].Plain? then ps[0].c else '$'
  {
  }

  lemma HeadSplits(p: Piece, ps: seq<Piece>)
    requires PieceOk(p) && (p.Var? && ps != [] && ps[0].Plain? ==> !IsNameChar(ps[0].c))
    ensures Pieces(Spelled(p) + Render(ps, map[])) == [p] + Pieces(Render(ps, map[]))
  {
    var rest := Render(ps, map[]);
    if ps != [] { RenderStarts(ps); }
    if p.Var? { VarHead(p.name, rest); } else { PlainHead(p.c, rest); }
  }

  /** A text has no other split with names as long as possible. */
  lemma {:induction false} PiecesUnique(ps: seq<Piece>)
    requires WellSplit(ps)
    ensures Pieces(Render(ps, map[])) == ps
  {
    if ps != [] {
      PiecesUnique(ps[1..]);
      HeadSplits(ps[0], ps[1..]);
      assert ps == [ps[0]] + ps[1..];
    }
  }

  // ---------- the substitution loop ----------

  /** What the text from `pos` on becomes. */
  function FromHere(text: string, pos: nat, env: map<string, string>): string
    requires pos <= |text|
  {
    Render(Pieces(text[pos..]), env)
  }

  lemma FromStart(text: string, env: map<string, string>)
    ensures FromHere(text, 0, env) == Render(Pieces(text), env)
  {
    assert text[0..] == text;
  }

  lemma Regroup(a: string, b: string, c: string)
    ensures a + (b + c) == (a + b) + c
  {
  }

  lemma VarStep(text: string, pos: nat, next: nat, env: map<string, string>)
    requires pos < |text| && text[pos] == '$' && next == pos + 1 + NameLen(text[pos + 1..]) <= |text|
    ensures FromHere(text, pos, env)
            == Replaced(Var(text[pos + 1..][..next - pos - 1]), env) + FromHere(text, next, env)
  {
    var name := text[pos + 1..][..next - pos - 1];
    assert text[pos..] == "$" + name + text[next..];
    assert next < |text| ==> text[next..][0] == text[pos + 1..][next - pos - 1];
    VarHead(name, text[next..]);
    RenderCons(Var(name), Pieces(text[next..]), env);
  }

  lemma PlainStep(text: string, pos: nat, env: map<string, string>)
    requires pos < |text| && text[pos] != '$'
    ensures FromHere(text, pos, env) == [text[pos]] + FromHere(text, pos + 1, env)
  {
    assert text[pos..] == [text[pos]] + text[pos + 1..];
    PlainHead(text[pos], text[pos + 1..]);
    RenderCons(Plain(text[pos]), Pieces(text[pos + 1..]), env);
  }

  lemma NameRead(text: string, pos: nat, next: nat)
    requires pos <= next <= |text| && (forall k :: pos <= k < next ==> IsNameChar(text[k]))
    requires next < |text| ==> !IsNameChar(text[next])
    ensures next == pos + NameLen(text[pos..]) && text[pos..][..next - pos] == text[pos..next]
  {
    NameLenIs(text[pos..], next - pos);
  }

  lemma ReadReference(text: string, pos: nat, next: nat, env: map<string, string>)
    requires 0 < pos <= next <= |text| && text[pos - 1] == '$'
    requires (forall k :: pos <= k < next ==> IsNameChar(text[k])) && (next < |text| ==> !IsNameChar(text[next]))
    ensures FromHere(text, pos - 1, env) == Replaced(Var(text[pos..next]), env) + FromHere(text, next, env)
  {
    NameRead(text, pos, next);
    VarStep(text, pos - 1, next, env);
  }

  /** Reads the name after the `$` before `pos` and gives what the reference becomes. */
  method AppendVariable(text: string, pos: nat, env: map<string, string>) returns (next: nat, added: string)
    requires 0 < pos <= |text| && text[pos - 1] == '$'
    ensures pos <= next <= |text| && FromHere(text, pos - 1, env) == added + FromHere(text, next, env)
  {
    next := pos;
    var name := "";
    while next < |text| && IsNameChar(text[next])
      invariant pos <= next <= |text| && name == text[pos..next]
      invariant forall k :: pos <= k < next ==> IsNameChar(text[k])
    {
      name := name + [text[next]];
      next := next + 1;
    }
    ReadReference(text, pos, next, env);
    if name in env {
      return next, env[name];
    }
    return next, "$" + name;
  }

  /** Substitution replaces exactly the known references of the command's pieces. */
  method SubstituteVars(text: string, env: map<string, string>) returns (result: string)
    ensures result == Render(Pieces(text), env)
  {
    result := "";
    var pos := 0;
    ghost var whole := Render(Pieces(text), env);
    FromStart(text, env);
    while pos < |text|
      invariant pos <= |text| && whole == result + FromHere(text, pos, env)
    {
      if text[pos] == '$' {
        var next, added := AppendVariable(text, pos + 1, env);
        Regroup(result, added, FromHere(text, next, env));
        result, pos := result + added, next;
      } else {
        PlainStep(text, pos, env);
        Regroup(result, [text[pos]], FromHere(text, pos + 1, env));
        result, pos := result + [text[pos]], pos + 1;
      }
    }
    assert FromHere(text, |text|, env) == "";
  }

  /** A command without a known reference stays as it is. */
  lemma {:induction false} UnknownStay(ps: seq<Piece>, env: map<string, string>)
    requires forall i :: 0 <= i < |ps| && ps[i].Var? ==> ps[i].name !in env
    ensures Render(ps, env) == Render(ps, map[])
  {
    if ps != [] { UnknownStay(ps[1..], env); }
  }

  // ---------- what substitution does to a command ----------

  lemma {:induction false} SplitsAppend(a: seq<Piece>, b: seq<Piece>)
    requires WellSplit(a) && WellSplit(b) && (b != [] && b[0].Plain? ==> !IsNameChar(b[0].c))
    ensures WellSplit(a + b)
  {
    if a == [] {
      assert a + b == b;
    } else {
      SplitsAppend(a[1..], b);
      ConsSplits(a[0], a[1..] + b);
      assert a + b == [a[0]] + (a[1..] + b);
    }
  }

  lemma {:induction false} RenderAppend(a: seq<Piece>, b: seq<Piece>, env: map<string, string>)
    ensures Render(a + b, env) == Render(a, env) + Render(b, env)
  {
    if a == [] {
      assert a + b == b;
    } else {
      assert (a + b)[1..] == a[1..] + b;
      RenderAppend(a[1..], b, env);
    }
  }

  /** Text that does not start with a name character is split apart from what is before it. */
  lemma PiecesAppend(a: string, b: string)
    requires b != "" ==> !IsNameChar(b[0])
    ensures Pieces(a + b) == Pieces(a) + Pieces(b)
  {
    PiecesSpell(a);
    PiecesSpell(b);
    if Pieces(b) != [] && Pieces(b)[0].Plain? { FirstPiece(b); }
    SplitsAppend(Pieces(a), Pieces(b));
    RenderAppend(Pieces(a), Pieces(b), map[]);
    PiecesUnique(Pieces(a) + Pieces(b));
  }

  lemma RenderReference(name: string, after: string, env: map<string, string>)
    requires PieceOk(Var(name)) && (after != "" ==> !IsNameChar(after[0]))
    ensures Render(Pieces("$" + name + after), env)
         == (if name in env then env[name] else "$" + name) + Render(Pieces(after), env)
  {
    VarHead(name, after);
    RenderCons(Var(name), Pieces(after), env);
  }

  lemma RenderApart(a: string, b: string, env: map<string, string>)
    requires b != "" ==> !IsNameChar(b[0])
    ensures Render(Pieces(a + b), env) == Render(Pieces(a), env) + Render(Pieces(b), env)
  {
    PiecesAppend(a, b);
    RenderAppend(Pieces(a), Pieces(b), env);
  }

  /** Wherever a reference stands, it becomes the value of its variable, and what is around it is treated on its own. */
  lemma ReferenceBecomes(before: string, name: string, after: string, env: map<string, string>)
    requires PieceOk(Var(name)) && (after != "" ==> !IsNameChar(after[0]))
    ensures Render(Pieces(before + ("$" + name + after)), env)
         == Render(Pieces(before), env) + ((if name in env then env[name] else "$" + name) + Render(Pieces(after), env))
  {
    RenderApart(before, "$" + name + after, env);
    RenderReference(name, after, env);
  }

  /** Text without a dollar sign stays as it is. */
  lemma {:induction false} PlainStays(text: string, env: map<string, string>)
    requires forall k :: 0 <= k < |text| ==> text[k] != '$'
    ensures Render(Pieces(text), env) == text
  {
    if text != "" {
      PlainStays(text[1..], env);
      assert text == [text[0]] + text[1..];
      RenderCons(Plain(text[0]), Pieces(text[1..]), env);
    }
  }
}
