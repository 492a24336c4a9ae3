/** Shell-style alias patterns (libs/kmod/src/aliases.rs). A byte is a `char`. */
module Glob {
  import opened Prelude

  function Lower(c: char): char {
    if 'A' <= c <= 'Z' then (c as int + 32) as char else c
  }

  /** A pattern byte other than `*` accepts one text byte. */
  predicate Accepts(p: char, c: char) {
    p == '?' || Lower(p) == Lower(c)
  }

  /** Declarative meaning: `*` is any run, `?` any one byte, the rest ignores ASCII case. */
  ghost predicate Matches(pattern: string, text: string)
    decreases |pattern|
  {
    if pattern == "" then text == ""
    else if pattern[0] == '*' then exists k :: 0 <= k <= |text| && Matches(pattern[1..], text[k..])
    else text != "" && Accepts(pattern[0], text[0]) && Matches(pattern[1..], text[1..])
  }

  predicate Letter(c: char) {
    'a' <= c <= 'z' || 'A' <= c <= 'Z'
  }

  /** A byte is accepted by itself, by its letter in the other case and by a question mark. */
  lemma AcceptsMeans(p: char, c: char)
    ensures Accepts(p, c) <==>
            p == '?' || p == c || (Letter(p) && Letter(c) && (p as int == c as int + 32 || c as int == p as int + 32))
  {
  }

  /** Some retry of the last star, one that swallows more than it does now, succeeds. */
  ghost predicate RetryMatches(pattern: string, text: string, star: Option<(nat, nat)>)
    requires star.Some? ==> star.value.0 < |pattern|
  {
    star.Some? && exists k :: star.value.1 < k <= |text| && Matches(pattern[star.value.0 + 1..], text[k..])
  }

  /** A star-free stretch consumes exactly its own length. */
  ghost predicate Consumes(stretch: string, text: string) {
    |stretch| == |text| &&
    forall i :: 0 <= i < |stretch| ==> stretch[i] != '*' && Accepts(stretch[i], text[i])
  }

  lemma StarAbsorbs(pattern: string, text: string, k: nat)
    requires pattern != "" && pattern[0] == '*' && k <= |text| && Matches(pattern, text[k..])
    ensures Matches(pattern, text)
  {
  }

  /** A star-free stretch of a matching pattern takes exactly its length off the text. */
  lemma {:induction false} StretchTakesItsLength(pattern: string, n: nat, text: string)
    requires n <= |pattern| && Matches(pattern, text)
    requires forall i :: 0 <= i < n ==> pattern[i] != '*'
    ensures n <= |text| && Matches(pattern[n..], text[n..])
  {
    if n == 0 {
      assert pattern[0..] == pattern && text[0..] == text;
    } else {
      StretchTakesItsLength(pattern[1..], n - 1, text[1..]);
      assert pattern[1..][n - 1..] == pattern[n..] && text[1..][n - 1..] == text[n..];
    }
  }

  /** Forgetting every earlier star is sound: the newest star can make up any lost alternative. */
  lemma NewStarSubsumesOld(pattern: string, text: string, star: Option<(nat, nat)>, pi: nat, ti: nat)
    requires pi < |pattern| && pattern[pi] == '*' && ti <= |text|
    requires star.Some? ==> star.value.0 < pi && star.value.1 <= ti
                            && Consumes(pattern[star.value.0 + 1..pi], text[star.value.1..ti])
    requires RetryMatches(pattern, text, star)
    ensures Matches(pattern[pi..], text[ti..])
  {
    var sp, st := star.value.0, star.value.1;
    var rest := pattern[sp + 1..];
    var k :| st < k <= |text| && Matches(rest, text[k..]);
    var n := pi - sp - 1;
    assert forall i :: 0 <= i < n ==> rest[i] == pattern[sp + 1..pi][i];
    StretchTakesItsLength(rest, n, text[k..]);
    assert rest[n..] == pattern[pi..];
    assert text[k..][n..] == text[ti..][k + n - ti..];
    StarAbsorbs(pattern[pi..], text[ti..], k + n - ti);
  }

  /** Once the text is used up, no retry is left: it would have too little text for the stretch. */
  lemma NoRetryAtTheEnd(pattern: string, text: string, star: Option<(nat, nat)>, pi: nat)
    requires pi <= |pattern|
    requires star.Some? ==> star.value.0 < pi && star.value.1 <= |text|
                            && Consumes(pattern[star.value.0 + 1..pi], text[star.value.1..|text|])
    ensures !RetryMatches(pattern, text, star)
  {
    if RetryMatches(pattern, text, star) {
      var sp, st := star.value.0, star.value.1;
      var rest := pattern[sp + 1..];
      var k :| st < k <= |text| && Matches(rest, text[k..]);
      assert forall i :: 0 <= i < pi - sp - 1 ==> rest[i] == pattern[sp + 1..pi][i];
      StretchTakesItsLength(rest, pi - sp - 1, text[k..]);
    }
  }

  /** A new star is one alternative now, or a retry of the same star further on. */
  lemma StarSplits(pattern: string, text: string, pi: nat, ti: nat)
    requires pi < |pattern| && pattern[pi] == '*' && ti <= |text|
    ensures Matches(pattern[pi..], text[ti..]) <==>
            Matches(pattern[pi + 1..], text[ti..]) || RetryMatches(pattern, text, Some((pi, ti)))
  {
    var p, t := pattern[pi..], text[ti..];
    assert p[1..] == pattern[pi + 1..];
    if Matches(p, t) {
      var k :| 0 <= k <= |t| && Matches(p[1..], t[k..]);
      assert t[k..] == text[ti + k..];
      assert k > 0 ==> ti < ti + k <= |text| && Matches(pattern[pi + 1..], text[ti + k..]);
    }
    if Matches(pattern[pi + 1..], text[ti..]) {
      assert t[0..] == t;
    }
    if RetryMatches(pattern, text, Some((pi, ti))) {
      var k :| ti < k <= |text| && Matches(pattern[pi + 1..], text[k..]);
      assert t[k - ti..] == text[k..];
    }
  }

  /** Retrying one position later leaves the retries after that one. */
  lemma RetrySplits(pattern: string, text: string, sp: nat, st: nat)
    requires sp < |pattern| && st < |text|
    ensures RetryMatches(pattern, text, Some((sp, st))) <==>
            Matches(pattern[sp + 1..], text[st + 1..]) || RetryMatches(pattern, text, Some((sp, st + 1)))
  {
  }

  lemma {:induction false} OnlyStarsMatchNothing(pattern: string)
    ensures Matches(pattern, "") <==> forall i :: 0 <= i < |pattern| ==> pattern[i] == '*'
  {
    if pattern != "" {
      OnlyStarsMatchNothing(pattern[1..]);
      assert Matches(pattern[1..], ""[0..]) == Matches(pattern[1..], "");
      assert forall i :: 0 < i < |pattern| ==> pattern[i] == pattern[1..][i - 1];
    }
  }

  /** Since the last star, the pattern has consumed the text byte by byte. */
  ghost predicate Follows(pattern: string, text: string, pi: nat, ti: nat, star: Option<(nat, nat)>)
    requires pi <= |pattern| && ti <= |text|
  {
    star.Some? ==> star.value.0 < pi && star.value.1 <= ti
                   && Consumes(pattern[star.value.0 + 1..pi], text[star.value.1..ti])
  }

  /** The answer is the current attempt or a retry of the last star. */
  ghost predicate Decides(pattern: string, text: string, pi: nat, ti: nat, star: Option<(nat, nat)>)
    requires pi <= |pattern| && ti <= |text| && (star.Some? ==> star.value.0 < |pattern|)
  {
    Matches(pattern, text) <==> Matches(pattern[pi..], text[ti..]) || RetryMatches(pattern, text, star)
  }

  /** What the matcher knows. */
  ghost predicate Knows(pattern: string, text: string, pi: nat, ti: nat, star: Option<(nat, nat)>) {
    pi <= |pattern| && ti <= |text| && Follows(pattern, text, pi, ti, star) && Decides(pattern, text, pi, ti, star)
  }

  lemma AtTheStart(pattern: string, text: string, pi: nat, ti: nat)
    requires pi == ti == 0
    ensures Knows(pattern, text, pi, ti, None)
  {
    assert pattern[pi..] == pattern && text[ti..] == text;
  }

  lemma AfterStar(pattern: string, text: string, pi: nat, ti: nat, star: Option<(nat, nat)>)
    requires Knows(pattern, text, pi, ti, star) && pi < |pattern| && pattern[pi] == '*'
    ensures Knows(pattern, text, pi + 1, ti, Some((pi, ti)))
  {
    if RetryMatches(pattern, text, star) {
      NewStarSubsumesOld(pattern, text, star, pi, ti);
    }
    StarSplits(pattern, text, pi, ti);
  }

  lemma AfterAccept(pattern: string, text: string, pi: nat, ti: nat, star: Option<(nat, nat)>)
    requires Knows(pattern, text, pi, ti, star) && pi < |pattern| && ti < |text|
    requires pattern[pi] != '*' && Accepts(pattern[pi], text[ti])
    ensures Knows(pattern, text, pi + 1, ti + 1, star)
  {
    var p, t := pattern[pi..], text[ti..];
    assert p[1..] == pattern[pi + 1..] && t[1..] == text[ti + 1..];
    if star.Some? {
      var sp, st := star.value.0, star.value.1;
      assert pattern[sp + 1..pi + 1] == pattern[sp + 1..pi] + [pattern[pi]];
      assert text[st..ti + 1] == text[st..ti] + [text[ti]];
    }
  }

  lemma MismatchFails(p: string, t: string)
    requires t != "" && (p != "" ==> p[0] != '*' && !Accepts(p[0], t[0]))
    ensures !Matches(p, t)
  {
  }

  /** Once the current attempt has failed, the next retry of the star is the current attempt. */
  lemma RetryDecides(pattern: string, text: string, pi: nat, ti: nat, sp: nat, st: nat)
    requires Knows(pattern, text, pi, ti, Some((sp, st))) && ti < |text| && !Matches(pattern[pi..], text[ti..])
    ensures Decides(pattern, text, sp + 1, st + 1, Some((sp, st + 1)))
  {
    RetrySplits(pattern, text, sp, st);
  }

  lemma NothingFollows(pattern: string, text: string, sp: nat, st: nat)
    requires sp < |pattern| && st <= |text|
    ensures Follows(pattern, text, sp + 1, st, Some((sp, st)))
  {
  }

  lemma AfterMismatch(pattern: string, text: string, pi: nat, ti: nat, star: Option<(nat, nat)>)
    requires Knows(pattern, text, pi, ti, star) && ti < |text|
    requires pi < |pattern| ==> pattern[pi] != '*' && !Accepts(pattern[pi], text[ti])
    ensures star.None? ==> !Matches(pattern, text)
    ensures star.Some? ==>
              Knows(pattern, text, star.value.0 + 1, star.value.1 + 1, Some((star.value.0, star.value.1 + 1)))
  {
    MismatchFails(pattern[pi..], text[ti..]);
    if star.Some? {
      RetryDecides(pattern, text, pi, ti, star.value.0, star.value.1);
      NothingFollows(pattern, text, star.value.0, star.value.1 + 1);
    }
  }

  lemma Finished(pattern: string, text: string, pi: nat, ti: nat, star: Option<(nat, nat)>)
    requires Knows(pattern, text, pi, ti, star) && ti == |text|
    ensures Matches(pattern, text) <==> forall i :: pi <= i < |pattern| ==> pattern[i] == '*'
  {
    NoRetryAtTheEnd(pattern, text, star, pi);
    assert text[|text|..] == "";
    var tail := pattern[pi..];
    OnlyStarsMatchNothing(tail);
    assert forall i :: pi <= i < |pattern| ==> pattern[i] == tail[i - pi];
  }

  /** The trailing loop of the matcher. */
  method OnlyStarsFrom(pattern: string, start: nat) returns (all: bool)
    requires start <= |pattern|
    ensures all <==> forall i :: start <= i < |pattern| ==> pattern[i] == '*'
  {
    var pi := start;
    while pi < |pattern| && pattern[pi] == '*'
      invariant start <= pi <= |pattern|
      invariant forall i :: start <= i < pi ==> pattern[i] == '*'
    {
      pi := pi + 1;
    }
    all := pi == |pattern|;
  }

  /** The iterative matcher that remembers only the last star decides the declarative meaning. */
  method GlobMatchBytes(pattern: string, text: string) returns (matched: bool)
    ensures matched <==> Matches(pattern, text)
  {
    var pi: nat, ti: nat := 0, 0;
    var star: Option<(nat, nat)> := None;
    AtTheStart(pattern, text, pi, ti);
    while ti < |text|
      invariant Knows(pattern, text, pi, ti, star)
      decreases if star.Some? then |text| - star.value.1 else |text| + 1, |pattern| - pi
    {
      if pi < |pattern| && pattern[pi] == '*' {
        AfterStar(pattern, text, pi, ti, star);
        star := Some((pi, ti));
        pi := pi + 1;
      } else if pi < |pattern| && Accepts(pattern[pi], text[ti]) {
        AfterAccept(pattern, text, pi, ti, star);
        pi, ti := pi + 1, ti + 1;
      } else {
        AfterMismatch(pattern, text, pi, ti, star);
        if star.None? {
          return false;
        }
        pi, ti, star := star.value.0 + 1, star.value.1 + 1, Some((star.value.0, star.value.1 + 1));
      }
    }

    Finished(pattern, text, pi, ti, star);
    matched := OnlyStarsFrom(pattern, pi);
  }
}
