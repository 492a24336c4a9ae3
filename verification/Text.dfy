/** Byte spans over one text arena, trimming and splitting (libs/kmod/src/text.rs). */
module Text {
  import opened Prelude

  datatype Span = Span(start: nat, len: nat)

  /** `s[from..to]`. */
  function Sub(s: string, from: nat, to: nat): (r: string)
    requires from <= to <= |s|
    ensures |r| == to - from
  {
    if from == 0 then s[..to] else s[from..to]
  }

  /** `span` cut out of `text`, empty when out of bounds. */
  function Slice(text: string, span: Span): string {
    if span.start + span.len <= |text| then Sub(text, span.start, span.start + span.len) else ""
  }

  predicate IsSpace(c: char) {
    c == ' ' || '\t' <= c <= '\r'
  }

  /** The first position from `i` on that is not white space. */
  function SkipSpaces(s: string, i: nat): (r: nat)
    requires i <= |s|
    ensures i <= r <= |s|
    decreases |s| - i
  {
    if i < |s| && IsSpace(s[i]) then SkipSpaces(s, i + 1) else i
  }

  /** The end of `s[lo..i]` without its trailing white space. */
  function DropSpaces(s: string, lo: nat, i: nat): (r: nat)
    requires lo <= i <= |s|
    ensures lo <= r <= i
  {
    if lo < i && IsSpace(s[i - 1]) then DropSpaces(s, lo, i - 1) else i
  }

  function Lead(s: string): (r: nat)
    ensures r <= |s|
  {
    SkipSpaces(s, 0)
  }

  function Tail(s: string): (r: nat)
    ensures Lead(s) <= r <= |s|
  {
    DropSpaces(s, Lead(s), |s|)
  }

  function Trim(s: string): string {
    Sub(s, Lead(s), Tail(s))
  }

  lemma {:induction false} SkipsToText(s: string, i: nat)
    requires i <= |s|
    ensures SkipSpaces(s, i) < |s| ==> !IsSpace(s[SkipSpaces(s, i)])
    decreases |s| - i
  {
    if i < |s| && IsSpace(s[i]) { SkipsToText(s, i + 1); }
  }

  ghost predicate AllSpace(s: string, from: nat, to: nat)
    requires from <= to <= |s|
  {
    forall k :: from <= k < to ==> IsSpace(s[k])
  }

  lemma {:induction false} SkipsSpaces(s: string, i: nat)
    requires i <= |s|
    ensures AllSpace(s, i, SkipSpaces(s, i))
    decreases |s| - i
  {
    if i < |s| && IsSpace(s[i]) { SkipsSpaces(s, i + 1); }
  }

  lemma {:induction false} DropsSpaces(s: string, lo: nat, i: nat)
    requires lo <= i <= |s|
    ensures AllSpace(s, DropSpaces(s, lo, i), i)
    ensures lo < DropSpaces(s, lo, i) ==> !IsSpace(s[DropSpaces(s, lo, i) - 1])
  {
    if lo < i && IsSpace(s[i - 1]) { DropsSpaces(s, lo, i - 1); }
  }

  /** Trimming takes off white space at both ends, and all of it. */
  lemma TrimMeans(s: string)
    ensures Lead(s) <= Tail(s) && Trim(s) == s[Lead(s)..Tail(s)]
    ensures AllSpace(s, 0, Lead(s)) && AllSpace(s, Tail(s), |s|)
    ensures Trim(s) != "" ==> !IsSpace(Trim(s)[0]) && !IsSpace(Trim(s)[|Trim(s)| - 1])
  {
    SkipsSpaces(s, 0);
    SkipsToText(s, 0);
    DropsSpaces(s, Lead(s), |s|);
  }

  /** Text without white space at its ends is left as it is. */
  lemma TrimKeeps(s: string)
    requires s != "" ==> !IsSpace(s[0]) && !IsSpace(s[|s| - 1])
    ensures Trim(s) == s && Lead(s) == 0
  {
  }

  lemma TrimmedHasNoLead(s: string)
    ensures Lead(Trim(s)) == 0
  {
    SkipsToText(s, 0);
    if Trim(s) != "" {
      assert Trim(s)[0] == s[Lead(s)];
    }
  }

  lemma PrefixHasNoLead(l: string, k: nat)
    requires Lead(l) == 0 && k <= |l|
    ensures Lead(l[..k]) == 0
  {
  }

  /** The span of the trimmed part of `raw`, which starts at `base` in the arena. */
  function SpanAt(base: nat, raw: string): Span {
    Span(base + Lead(raw), Tail(raw) - Lead(raw))
  }

  /** `piece` sits at `base` in the arena. */
  ghost predicate At(text: string, base: nat, piece: string) {
    base + |piece| <= |text| && forall i :: 0 <= i < |piece| ==> piece[i] == text[base + i]
  }

  lemma SubPieceAt(text: string, base: nat, piece: string, from: nat, to: nat)
    requires At(text, base, piece) && from <= to <= |piece|
    ensures At(text, base + from, Sub(piece, from, to))
    ensures Slice(text, Span(base + from, to - from)) == Sub(piece, from, to)
  {
  }

  /** Cutting a piece at a one-byte separator gives two pieces, the second right after it. */
  lemma CutAt(text: string, base: nat, l: string, k: nat)
    requires At(text, base, l) && k < |l|
    ensures At(text, base, l[..k]) && At(text, base + k + 1, l[k + 1..])
  {
  }

  /** A span taken for a trimmed piece of the arena slices back to that trimmed piece. */
  lemma SpanRoundTrip(text: string, base: nat, raw: string)
    requires At(text, base, raw)
    ensures Slice(text, SpanAt(base, raw)) == Trim(raw)
  {
    SubPieceAt(text, base, raw, Lead(raw), Tail(raw));
  }

  lemma TrimAt(text: string, base: nat, raw: string)
    requires At(text, base, raw)
    ensures At(text, base + Lead(raw), Trim(raw))
  {
  }

  /** The first `c` from `i` on. */
  function FindFrom(s: string, c: char, i: nat): (r: Option<nat>)
    requires i <= |s|
    ensures r.Some? ==> i <= r.value < |s|
    decreases |s| - i
  {
    if i == |s| then None else if s[i] == c then Some(i) else FindFrom(s, c, i + 1)
  }

  /** The last `c` before `i`. */
  function FindBefore(s: string, c: char, i: nat): (r: Option<nat>)
    requires i <= |s|
    ensures r.Some? ==> r.value < i
  {
    if i == 0 then None else if s[i - 1] == c then Some(i - 1) else FindBefore(s, c, i - 1)
  }

  /** The pieces between separators; always at least one. */
  function Split(s: string, sep: char): seq<string>
    decreases |s|
  {
    match FindFrom(s, sep, 0)
    case None => [s]
    case Some(i) => [s[..i]] + Split(s[i + 1..], sep)
  }

  /** `c` does not occur in `s[from..to]`. */
  predicate Lacks(s: string, c: char, from: nat, to: nat)
    requires from <= to <= |s|
  {
    forall k :: from <= k < to ==> s[k] != c
  }

  /** Finds `c` exactly if it occurs, and then its first occurrence. */
  lemma {:induction false} FindsFirst(s: string, c: char, i: nat)
    requires i <= |s|
    ensures FindFrom(s, c, i).None? <==> Lacks(s, c, i, |s|)
    ensures FindFrom(s, c, i).Some? ==> s[FindFrom(s, c, i).value] == c && Lacks(s, c, i, FindFrom(s, c, i).value)
    decreases |s| - i
  {
    if i < |s| && s[i] != c { FindsFirst(s, c, i + 1); }
  }

  /** Finds `c` exactly if it occurs, and then its last occurrence. */
  lemma {:induction false} FindsLast(s: string, c: char, i: nat)
    requires i <= |s|
    ensures FindBefore(s, c, i).None? <==> Lacks(s, c, 0, i)
    ensures FindBefore(s, c, i).Some? ==>
              s[FindBefore(s, c, i).value] == c && Lacks(s, c, FindBefore(s, c, i).value + 1, i)
  {
    if i > 0 && s[i - 1] != c { FindsLast(s, c, i - 1); }
  }

  /** The pieces with a separator between each two. */
  function Join(pieces: seq<string>, sep: char): string
    requires pieces != []
  {
    if |pieces| == 1 then pieces[0] else pieces[0] + [sep] + Join(pieces[1..], sep)
  }

  ghost predicate AllLack(pieces: seq<string>, c: char) {
    forall i :: 0 <= i < |pieces| ==> Lacks(pieces[i], c, 0, |pieces[i]|)
  }

  lemma JoinCons(head: string, rest: seq<string>, sep: char)
    requires rest != []
    ensures Join([head] + rest, sep) == head + [sep] + Join(rest, sep)
  {
    assert ([head] + rest)[1..] == rest;
  }

  lemma CutIsJoin(s: string, i: nat)
    requires i < |s|
    ensures s == s[..i] + [s[i]] + s[i + 1..]
  {
  }

  /** The pieces of a split are all of the text: joined they give it back, and no piece holds a separator. */
  lemma {:induction false} SplitJoins(s: string, sep: char)
    ensures Split(s, sep) != [] && Join(Split(s, sep), sep) == s && AllLack(Split(s, sep), sep)
    decreases |s|
  {
    FindsFirst(s, sep, 0);
    match FindFrom(s, sep, 0)
    case None =>
    case Some(i) =>
      SplitJoins(s[i + 1..], sep);
      JoinCons(s[..i], Split(s[i + 1..], sep), sep);
      CutIsJoin(s, i);
  }

  lemma FirstSeparator(head: string, rest: string, sep: char)
    requires Lacks(head, sep, 0, |head|)
    ensures FindFrom(head + [sep] + rest, sep, 0) == Some(|head|)
    ensures (head + [sep] + rest)[..|head|] == head && (head + [sep] + rest)[|head| + 1..] == rest
  {
    var s := head + [sep] + rest;
    FindsFirst(s, sep, 0);
    assert s[|head|] == sep;
    assert forall k :: 0 <= k < |head| ==> s[k] == head[k];
  }

  /** No other pieces without separators join to the text. */
  lemma {:induction false} SplitUndoesJoin(pieces: seq<string>, sep: char)
    requires pieces != [] && AllLack(pieces, sep)
    ensures Split(Join(pieces, sep), sep) == pieces
  {
    if |pieces| == 1 {
      FindsFirst(pieces[0], sep, 0);
    } else {
      SplitUndoesJoin(pieces[1..], sep);
      FirstSeparator(pieces[0], Join(pieces[1..], sep), sep);
      assert pieces == [pieces[0]] + pieces[1..];
    }
  }

  // ---------- callbacks over the pieces of a split ----------

  function MapSeq<T, U>(f: T -> U, s: seq<T>): (r: seq<U>)
    ensures |r| == |s|
  {
    if s == [] then [] else [f(s[0])] + MapSeq(f, s[1..])
  }

  function Listed<T>(x: Option<T>): seq<T> {
    match x case None => [] case Some(v) => [v]
  }

  function MapOption<T, U>(f: T -> U, x: Option<T>): Option<U> {
    match x case None => None case Some(v) => Some(f(v))
  }

  function FilterMap<T>(f: string -> Option<T>, pieces: seq<string>): seq<T> {
    if pieces == [] then [] else Listed(f(pieces[0])) + FilterMap(f, pieces[1..])
  }

  /** The same with each piece's running offset: every piece is followed by one separator. */
  function FilterMapAt<T>(f: (string, nat) -> Option<T>, pieces: seq<string>, base: nat): seq<T> {
    if pieces == [] then [] else Listed(f(pieces[0], base)) + FilterMapAt(f, pieces[1..], base + |pieces[0]| + 1)
  }

  lemma {:induction false} FilterMapAll<T>(f: string -> Option<T>, pieces: seq<string>, p: T -> bool)
    requires forall piece :: f(piece).Some? ==> p(f(piece).value)
    ensures forall x :: x in FilterMap(f, pieces) ==> p(x)
  {
    if pieces != [] { FilterMapAll(f, pieces[1..], p); }
  }

  /** Filtering goes piece by piece, in order. */
  lemma {:induction false} FilterMapAppend<T>(f: string -> Option<T>, a: seq<string>, b: seq<string>)
    ensures FilterMap(f, a + b) == FilterMap(f, a) + FilterMap(f, b)
  {
    if a == [] {
      assert a + b == b;
    } else {
      assert (a + b)[1..] == a[1..] + b;
      FilterMapAppend(f, a[1..], b);
    }
  }

  lemma {:induction false} FilterMapOnto<T>(f: string -> Option<T>, pieces: seq<string>, out: seq<T>)
    requires |pieces| == |out| && forall i :: 0 <= i < |pieces| ==> f(pieces[i]) == Some(out[i])
    ensures FilterMap(f, pieces) == out
  {
    if pieces != [] {
      FilterMapOnto(f, pieces[1..], out[1..]);
      assert out == [out[0]] + out[1..];
    }
  }

  lemma PrefixGrows<T>(s: seq<T>, i: nat)
    requires i < |s|
    ensures s[..i + 1] == s[..i] + [s[i]] && s[..i + 1][..i] == s[..i]
  {
  }

  lemma AppendAssociates<T>(a: seq<T>, b: seq<T>, c: seq<T>)
    ensures (a + b) + c == a + (b + c)
  {
  }

  lemma {:induction false} MapSeqAt<T, U>(f: T -> U, s: seq<T>, i: nat)
    requires i < |s|
    ensures MapSeq(f, s)[i] == f(s[i])
  {
    if i > 0 { MapSeqAt(f, s[1..], i - 1); }
  }

  lemma {:induction false} MapSeqAppend<T, U>(f: T -> U, a: seq<T>, b: seq<T>)
    ensures MapSeq(f, a + b) == MapSeq(f, a) + MapSeq(f, b)
  {
    if a == [] {
      assert a + b == b;
    } else {
      assert (a + b)[1..] == a[1..] + b;
      MapSeqAppend(f, a[1..], b);
    }
  }

  /** Each piece sits at its running offset: the previous one's end plus one separator. */
  ghost predicate PiecesAt(text: string, base: nat, pieces: seq<string>)
    decreases |pieces|
  {
    pieces == [] || (At(text, base, pieces[0]) && PiecesAt(text, base + |pieces[0]| + 1, pieces[1..]))
  }

  lemma PiecesAtCons(text: string, base: nat, head: string, rest: seq<string>)
    requires At(text, base, head) && PiecesAt(text, base + |head| + 1, rest)
    ensures PiecesAt(text, base, [head] + rest)
  {
  }

  /** The running offset of a line loop is where each line really is. */
  lemma {:induction false} SplitPiecesAt(text: string, base: nat, s: string, sep: char)
    requires At(text, base, s)
    ensures PiecesAt(text, base, Split(s, sep))
    decreases |s|
  {
    match FindFrom(s, sep, 0)
    case None =>
    case Some(i) =>
      CutAt(text, base, s, i);
      SplitPiecesAt(text, base + i + 1, s[i + 1..], sep);
      PiecesAtCons(text, base, s[..i], Split(s[i + 1..], sep));
  }

  /**
   * If spans computed for a piece at its offset denote (through `v`) what the piece says, then
   * the spans computed by the running-offset loop denote what all the pieces say.
   */
  lemma {:induction false} PiecesDenote<T, U>(text: string, base: nat, pieces: seq<string>,
                                              f: (string, nat) -> Option<T>, g: string -> Option<U>, v: T -> U)
    requires PiecesAt(text, base, pieces)
    requires forall piece, b {:trigger f(piece, b)} :: At(text, b, piece) ==> MapOption(v, f(piece, b)) == g(piece)
    ensures MapSeq(v, FilterMapAt(f, pieces, base)) == FilterMap(g, pieces)
    decreases |pieces|
  {
    if pieces != [] {
      var next := base + |pieces[0]| + 1;
      PiecesDenote(text, next, pieces[1..], f, g, v);
      MapSeqAppend(v, Listed(f(pieces[0], base)), FilterMapAt(f, pieces[1..], next));
    }
  }

  /** The loop over split pieces with a running offset, collecting what `f` finds. */
  method CollectPieces<T>(f: (string, nat) -> Option<T>, s: string, sep: char, base: nat) returns (found: seq<T>)
    ensures found == FilterMapAt(f, Split(s, sep), base)
  {
    found := [];
    var pieces := Split(s, sep);
    var offset: nat := base;
    for i := 0 to |pieces|
      invariant found + FilterMapAt(f, pieces[i..], offset) == FilterMapAt(f, pieces, base)
    {
      assert pieces[i..][1..] == pieces[i + 1..];
      var one := Listed(f(pieces[i], offset));
      var next := offset + |pieces[i]| + 1;
      AppendAssociates(found, one, FilterMapAt(f, pieces[i + 1..], next));
      found, offset := found + one, next;
    }
  }
}
