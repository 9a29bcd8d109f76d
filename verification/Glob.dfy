/** The pattern matcher for paths and hosts: a backtracking matcher against the meaning of patterns. */
module Glob {
  import opened Common

  /**
    * `?` any character, `$` the end of the string, `*` no slash, `**` anything, and characters that stand for
    * themselves.
    */
  datatype Token = Any | End | Star | DoubleStar | Lit(c: char)

  /** How an alternative is read; what follows a `$` is ignored. */
  function Tokens(p: string): seq<Token> {
    if p == [] then []
    else match p[0]
      case '?' => [Any] + Tokens(p[1..])
      case '$' => [End]
      case '*' => if |p| > 1 && p[1] == '*' then [DoubleStar] + Tokens(p[2..]) else [Star] + Tokens(p[1..])
      case c => [Lit(c)] + Tokens(p[1..])
  }

  ghost predicate Fits(t: Token, piece: string) {
    match t
    case Any => |piece| == 1
    case End => piece == []
    case Star => '/' !in piece
    case DoubleStar => true
    case Lit(c) => piece == [c]
  }

  ghost predicate FitAll(ts: seq<Token>, pieces: seq<string>) {
    |pieces| == |ts| && forall i :: 0 <= i < |ts| ==> Fits(ts[i], pieces[i])
  }

  function Flat(pieces: seq<string>): string {
    if pieces == [] then [] else pieces[0] + Flat(pieces[1..])
  }

  /** The tokens match the first k characters: these fall into pieces, one for each token, and `$` needs all of s. */
  ghost predicate Means(ts: seq<Token>, s: string, k: nat) {
    && k <= |s| && (End in ts ==> k == |s|)
    && exists pieces :: Flat(pieces) == s[..k] && FitAll(ts, pieces)
  }

  function Bar(p: string): (r: Option<nat>)
    ensures r.Some? ==> r.value < |p| && p[r.value] == '|' && '|' !in p[..r.value]
    ensures r.None? <==> '|' !in p
  {
    if p == [] then None
    else if p[0] == '|' then Some(0)
    else match Bar(p[1..])
      case None => None
      case Some(k) =>
        assert p[..k + 1] == [p[0]] + p[1..][..k];
        Some(k + 1)
  }

  function Alternatives(p: string): seq<string> {
    match Bar(p) case None => [p] case Some(k) => [p[..k]] + Alternatives(p[k + 1..])
  }

  /** The length of the part before the first slash. */
  function Span(s: string): (n: nat)
    ensures n <= |s| && '/' !in s[..n] && (n < |s| ==> s[n] == '/')
  {
    if s == [] || s[0] == '/' then 0
    else
      var n := Span(s[1..]);
      assert s[..n + 1] == [s[0]] + s[1..][..n];
      n + 1
  }

  function Shift(n: nat, r: int): int {
    if r == -1 then -1 else n + r
  }

  /** How far a star may reach, and the pattern behind it. */
  function Reach(p: string, s: string): (nat, string)
    requires p != [] && p[0] == '*'
  {
    if |p| > 1 && p[1] == '*' then (|s|, p[2..]) else (Span(s), p[1..])
  }

  /** The result for a pattern without alternatives: a length, or -1. */
  function Seg(p: string, s: string): (r: int)
    ensures r >= -1
    decreases |p|, |s| + 1
  {
    if p == [] then 0
    else if p[0] == '?' && s != [] then Shift(1, Seg(p[1..], s[1..]))
    else if p[0] == '$' then (if s == [] then 0 else -1)
    else if p[0] == '*' then
      var (len, rest) := Reach(p, s);
      if rest == [] then len else StarFrom(rest, s, len)
    else if s == [] || p[0] != s[0] then -1
    else Shift(1, Seg(p[1..], s[1..]))
  }

  /** The longest choice of the star, from n down, for which the rest matches. */
  function StarFrom(rest: string, s: string, n: nat): (r: int)
    requires n <= |s|
    ensures r >= -1
    decreases |rest|, |s| + 2 + n
  {
    var r := Seg(rest, s[n..]);
    if r != -1 then n + r else if n == 0 then -1 else StarFrom(rest, s, n - 1)
  }

  function MatchPrefix(p: string, s: string): (r: int)
    ensures r >= -1
    decreases |p|
  {
    match Bar(p)
    case None => Seg(p, s)
    case Some(k) =>
      var r := MatchPrefix(p[..k], s);
      if r > 0 then r else MatchPrefix(p[k + 1..], s)
  }

  lemma Cut(s: string, n: nat, k: nat)
    requires n + k <= |s|
    ensures s[..n + k] == s[..n] + s[n..][..k]
  {
  }

  /** A token and the rest match k characters if the token takes the first n of them and the rest the others. */
  lemma MeansCons(t: Token, ts: seq<Token>, s: string, n: nat, k: nat)
    requires n <= |s| && k <= |s| - n && Fits(t, s[..n]) && Means(ts, s[n..], k)
    requires t == End ==> s == [] && ts == []
    ensures Means([t] + ts, s, n + k)
  {
    hide Fits;
    var pieces :| Flat(pieces) == s[n..][..k] && FitAll(ts, pieces);
    var all := [s[..n]] + pieces;
    assert all[1..] == pieces;
    Cut(s, n, k);
    assert FitAll([t] + ts, all);
  }

  lemma MeansUncons(t: Token, ts: seq<Token>, s: string, k: nat) returns (n: nat)
    requires Means([t] + ts, s, k)
    ensures n <= k && Fits(t, s[..n]) && Means(ts, s[n..], k - n)
  {
    hide Fits;
    var all := [t] + ts;
    var pieces :| Flat(pieces) == s[..k] && FitAll(all, pieces);
    var rest := pieces[1..];
    n := |pieces[0]|;
    assert s[..k] == pieces[0] + Flat(rest);
    assert s[..n] == s[..k][..n] == pieces[0];
    assert s[n..][..k - n] == s[..k][n..] == Flat(rest);
    assert all[0] == t && Fits(all[0], pieces[0]);
    assert FitAll(ts, rest) by {
      assert forall i :: 0 <= i < |ts| ==> all[i + 1] == ts[i] && rest[i] == pieces[i + 1];
    }
    assert End in ts ==> End in all;
  }

  lemma MeansNil(s: string, k: nat)
    ensures Means([], s, k) <==> k == 0
  {
    if k == 0 {
      var none: seq<string> := [];
      assert Flat(none) == s[..k];
    }
  }

  lemma MeansEnd(s: string, k: nat)
    ensures Means([End], s, k) <==> k == 0 && s == []
  {
    if Means([End], s, k) {
      assert [End][0] == End;
      assert [End] == [End] + [];
      var n := MeansUncons(End, [], s, k);
      MeansNil(s[n..], k - n);
    }
    if k == 0 && s == [] {
      MeansNil(s, 0);
      assert s[0..] == s;
      assert [End] + [] == [End];
      MeansCons(End, [], s, 0, 0);
    }
  }

  /** r is a matched length, positive if any is, and -1 if none is. */
  ghost predicate Best(ts: seq<Token>, s: string, r: int) {
    && (r >= 0 ==> Means(ts, s, r))
    && (forall k :: Means(ts, s, k) ==> r >= 0 && (k > 0 ==> r > 0))
  }

  /** One character consumed in front. */
  lemma BestShift(t: Token, ts: seq<Token>, s: string, r: int)
    requires t.Any? || t.Lit?
    requires s != [] && Fits(t, s[..1]) && r >= -1 && Best(ts, s[1..], r)
    ensures Best([t] + ts, s, Shift(1, r))
  {
    if r >= 0 {
      MeansCons(t, ts, s, 1, r);
    }
    forall k: nat | Means([t] + ts, s, k)
      ensures r >= 0
    {
      var n := MeansUncons(t, ts, s, k);
      assert n == 1;
    }
  }

  lemma NoMatch(t: Token, ts: seq<Token>, s: string)
    requires t.Any? || t.Lit?
    requires s == [] || !Fits(t, s[..1])
    ensures Best([t] + ts, s, -1)
  {
    forall k: nat | Means([t] + ts, s, k)
      ensures false
    {
      var n := MeansUncons(t, ts, s, k);
    }
  }

  /** What a star may take: up to len characters. */
  ghost predicate Takes(t: Token, s: string, len: nat) {
    len <= |s| && forall n :: 0 <= n <= |s| ==> (Fits(t, s[..n]) <==> n <= len)
  }

  lemma ReachTakes(p: string, s: string)
    requires p != [] && p[0] == '*'
    ensures var (len, rest) := Reach(p, s);
            var t := if |p| > 1 && p[1] == '*' then DoubleStar else Star;
            Takes(t, s, len) && Tokens(p) == [t] + Tokens(rest) && |rest| < |p|
  {
    if |p| > 1 && p[1] == '*' {
      assert Takes(DoubleStar, s, |s|);
    } else {
      SpanTakes(s);
    }
    hide Takes, Span;
  }

  lemma SpanTakes(s: string)
    ensures Takes(Star, s, Span(s))
  {
    var len := Span(s);
    forall n | 0 <= n <= |s|
      ensures '/' !in s[..n] <==> n <= len
    {
      if n <= len {
        assert s[..n] == s[..len][..n];
      } else {
        assert s[..n][len] == '/';
      }
    }
  }

  /** A star at the end takes as much as it can. */
  lemma StarAtEnd(t: Token, s: string, len: nat)
    requires t.Star? || t.DoubleStar?
    requires Takes(t, s, len)
    ensures Best([t] + [], s, len)
  {
    MeansNil(s[len..], 0);
    MeansCons(t, [], s, len, 0);
    forall k: nat | Means([t] + [], s, k)
      ensures k <= len
    {
      var n := MeansUncons(t, [], s, k);
      MeansNil(s[n..], k - n);
    }
  }

  /** The tokens match what is left of the first k characters once a star has taken n. */
  ghost predicate Leaves(ts: seq<Token>, s: string, n: nat, k: nat) {
    n <= |s| && n <= k && Means(ts, s[n..], k - n)
  }

  /** The backtracking loop misses nothing: if it fails from n down, no choice up to n lets the rest match. */
  lemma {:induction false} StarBest(rest: string, s: string, n: nat)
    requires n <= |s| && forall m :: 0 <= m <= n ==> Best(Tokens(rest), s[m..], Seg(rest, s[m..]))
    ensures StarFrom(rest, s, n) >= 0 ==> exists m: nat :: m <= n && Leaves(Tokens(rest), s, m, StarFrom(rest, s, n))
    ensures forall m: nat, k: nat :: m <= n && Leaves(Tokens(rest), s, m, k) ==>
              StarFrom(rest, s, n) >= 0 && (k > 0 ==> StarFrom(rest, s, n) > 0)
  {
    hide Means, Seg, Tokens;
    var r := Seg(rest, s[n..]);
    assert Best(Tokens(rest), s[n..], r);
    if r == -1 && n > 0 {
      StarBest(rest, s, n - 1);
    } else if r >= 0 {
      assert Leaves(Tokens(rest), s, n, n + r);
    }
  }

  lemma StarThenRest(t: Token, rest: string, s: string, len: nat)
    requires t.Star? || t.DoubleStar?
    requires Takes(t, s, len) && forall m :: 0 <= m <= len ==> Best(Tokens(rest), s[m..], Seg(rest, s[m..]))
    ensures Best([t] + Tokens(rest), s, StarFrom(rest, s, len))
  {
    StarBest(rest, s, len);
    hide Means, StarFrom, Tokens, Seg;
    var r := StarFrom(rest, s, len);
    if r >= 0 {
      var m: nat :| m <= len && Leaves(Tokens(rest), s, m, r);
      MeansCons(t, Tokens(rest), s, m, r - m);
    }
    forall k: nat | Means([t] + Tokens(rest), s, k)
      ensures r >= 0 && (k > 0 ==> r > 0)
    {
      var n := MeansUncons(t, Tokens(rest), s, k);
      assert Leaves(Tokens(rest), s, n, k);
    }
  }

  /** A pattern without alternatives: the result is right, and never misses a match. */
  lemma {:induction false} SegBest(p: string, s: string)
    ensures Best(Tokens(p), s, Seg(p, s))
    decreases |p|
  {
    if p == [] {
      forall k ensures Means([], s, k) <==> k == 0 {
        MeansNil(s, k);
      }
    } else if p[0] == '$' {
      forall k ensures Means([End], s, k) <==> k == 0 && s == [] {
        MeansEnd(s, k);
      }
    } else if p[0] == '*' {
      var (len, rest) := Reach(p, s);
      var t := if |p| > 1 && p[1] == '*' then DoubleStar else Star;
      ReachTakes(p, s);
      if rest == [] {
        StarAtEnd(t, s, len);
      } else {
        forall m | 0 <= m <= len ensures Best(Tokens(rest), s[m..], Seg(rest, s[m..])) {
          SegBest(rest, s[m..]);
        }
        StarThenRest(t, rest, s, len);
      }
    } else {
      var t := if p[0] == '?' then Any else Lit(p[0]);
      if s == [] || (p[0] != '?' && p[0] != s[0]) {
        NoMatch(t, Tokens(p[1..]), s);
      } else {
        SegBest(p[1..], s[1..]);
        BestShift(t, Tokens(p[1..]), s, Seg(p[1..], s[1..]));
      }
    }
  }

  ghost predicate MatchesAlone(a: string, s: string) {
    exists k: nat :: k > 0 && Means(Tokens(a), s, k)
  }

  /** Some alternative of p matches a non-empty prefix of s. */
  ghost predicate Matches(p: string, s: string) {
    exists a :: a in Alternatives(p) && MatchesAlone(a, s)
  }

  lemma MatchesSplit(p: string, i: nat, s: string)
    requires Bar(p) == Some(i)
    ensures Matches(p, s) <==> Matches(p[..i], s) || Matches(p[i + 1..], s)
  {
    hide MatchesAlone;
    var first, others := p[..i], Alternatives(p[i + 1..]);
    assert Bar(first) == None;
    assert Alternatives(p) == [first] + others && Alternatives(first) == [first];
    hide Alternatives;
    AnyOf(first, others, s);
    AnyOf(first, [], s);
    assert [first] + [] == [first];
  }

  lemma AnyOf(first: string, others: seq<string>, s: string)
    ensures (exists a :: a in [first] + others && MatchesAlone(a, s)) <==>
            MatchesAlone(first, s) || exists a :: a in others && MatchesAlone(a, s)
  {
    hide MatchesAlone;
    assert first in [first] + others;
  }

  lemma SegIsRight(p: string, s: string)
    requires '|' !in p
    ensures Seg(p, s) > 0 <==> Matches(p, s)
    ensures Seg(p, s) > 0 ==> Means(Tokens(p), s, Seg(p, s))
  {
    SegBest(p, s);
    hide Means, Tokens, Seg;
    assert Alternatives(p) == [p];
    assert p in Alternatives(p);
  }

  /** The result is positive if and only if some alternative matches a non-empty prefix, and is then such a length. */
  lemma {:induction false} MatchIsRight(p: string, s: string)
    ensures MatchPrefix(p, s) > 0 <==> Matches(p, s)
    ensures MatchPrefix(p, s) > 0 ==> exists a :: a in Alternatives(p) && Means(Tokens(a), s, MatchPrefix(p, s))
    decreases |p|
  {
    match Bar(p)
    case None =>
      SegIsRight(p, s);
      assert p in Alternatives(p);
    case Some(i) =>
      hide Means, Tokens, Matches;
      MatchesSplit(p, i, s);
      MatchIsRight(p[..i], s);
      MatchIsRight(p[i + 1..], s);
      assert Bar(p[..i]) == None;
      assert forall a :: a in Alternatives(p[..i]) || a in Alternatives(p[i + 1..]) ==> a in Alternatives(p);
  }

  // Which of the matches it is

  /** The pieces fit the tokens and make up a beginning of s, or all of it before a `$`. */
  ghost predicate Splits(ts: seq<Token>, pieces: seq<string>, s: string) {
    FitAll(ts, pieces) && Flat(pieces) <= s && (End in ts ==> Flat(pieces) == s)
  }

  /** Against any other fitting pieces, the first one whose length differs is the longer one. */
  ghost predicate Greediest(ts: seq<Token>, best: seq<string>, s: string) {
    && Splits(ts, best, s)
    && forall q :: Splits(ts, q, s) ==> NoLonger(q, best)
  }

  ghost predicate NoLonger(q: seq<string>, best: seq<string>) {
    |q| == |best| &&
    forall i :: 0 <= i < |q| && (forall j :: 0 <= j < i ==> |q[j]| == |best[j]|) ==> |q[i]| <= |best[i]|
  }

  /** r is the total length of the greediest pieces, and -1 if none fit. */
  ghost predicate Greedy(ts: seq<Token>, s: string, r: int) {
    if r == -1 then forall q :: !Splits(ts, q, s)
    else exists best :: Greediest(ts, best, s) && |Flat(best)| == r
  }

  lemma SplitCons(t: Token, ts: seq<Token>, s: string, n: nat, rest: seq<string>)
    requires n <= |s| && Fits(t, s[..n]) && Splits(ts, rest, s[n..])
    requires t == End ==> s == [] && ts == []
    ensures Splits([t] + ts, [s[..n]] + rest, s)
    ensures |Flat([s[..n]] + rest)| == n + |Flat(rest)|
  {
    hide Fits;
    var all := [s[..n]] + rest;
    assert all[1..] == rest && Flat(all) == s[..n] + Flat(rest);
    assert s == s[..n] + s[n..];
  }

  lemma SplitUncons(t: Token, ts: seq<Token>, s: string, q: seq<string>)
    requires Splits([t] + ts, q, s)
    ensures q != [] && |q[0]| <= |s| && q[0] == s[..|q[0]|] && Fits(t, q[0])
    ensures Splits(ts, q[1..], s[|q[0]|..])
  {
    hide Fits;
    var all, n, rest := [t] + ts, |q[0]|, q[1..];
    assert Flat(q) == q[0] + Flat(rest);
    assert all[0] == t && Fits(all[0], q[0]);
    assert forall i :: 0 <= i < |ts| ==> all[i + 1] == ts[i] && rest[i] == q[i + 1];
    assert End in ts ==> End in all;
    assert s[..n] == q[0];
    assert Flat(rest) == Flat(q)[n..] && Flat(q) == s[..|Flat(q)|];
    assert Flat(rest) == s[n..][..|Flat(rest)|];
  }

  /** A greedy choice of the first piece followed by greedy others is greedy. */
  lemma GreedyCons(t: Token, ts: seq<Token>, s: string, n: nat, rest: seq<string>)
    requires n <= |s| && Fits(t, s[..n]) && Greediest(ts, rest, s[n..])
    requires t == End ==> s == [] && ts == []
    requires forall q :: Splits([t] + ts, q, s) ==> q != [] && |q[0]| <= n
    ensures Greedy([t] + ts, s, n + |Flat(rest)|)
  {
    hide Fits, FitAll, Flat, NoLonger;
    var best := [s[..n]] + rest;
    SplitCons(t, ts, s, n, rest);
    hide Splits;
    forall q | Splits([t] + ts, q, s)
      ensures NoLonger(q, best)
    {
      ChoiceIsNoLonger(t, ts, s, n, rest, q);
    }
    assert Greediest([t] + ts, best, s);
  }

  lemma ChoiceIsNoLonger(t: Token, ts: seq<Token>, s: string, n: nat, rest: seq<string>, q: seq<string>)
    requires n <= |s| && Greediest(ts, rest, s[n..]) && Splits([t] + ts, q, s) && q != [] && |q[0]| <= n
    ensures NoLonger(q, [s[..n]] + rest)
  {
    hide Fits, FitAll, Flat;
    var best := [s[..n]] + rest;
    SplitUncons(t, ts, s, q);
    if |q[0]| == n {
      assert best[1..] == rest;
      NoLongerCons(q, best);
    } else {
      SameCount(ts, q[1..], rest, s[|q[0]|..], s[n..]);
      assert |q[0]| < |best[0]|;
    }
  }

  lemma SameCount(ts: seq<Token>, q: seq<string>, r: seq<string>, s: string, u: string)
    requires Splits(ts, q, s) && Splits(ts, r, u)
    ensures |q| == |r|
  {
  }

  lemma NoLongerCons(q: seq<string>, best: seq<string>)
    requires q != [] && best != [] && |q[0]| == |best[0]| && NoLonger(q[1..], best[1..])
    ensures NoLonger(q, best)
  {
    forall i | 0 <= i < |q| && forall j :: 0 <= j < i ==> |q[j]| == |best[j]|
      ensures |q[i]| <= |best[i]|
    {
      if i > 0 {
        assert forall j :: 0 <= j < i - 1 ==> q[1..][j] == q[j + 1] && best[1..][j] == best[j + 1];
        assert |q[1..][i - 1]| <= |best[1..][i - 1]|;
      }
    }
  }

  lemma GreedyNil(s: string)
    ensures Greedy([], s, 0) && Greediest([], [], s)
  {
    var none: seq<string> := [];
    assert Splits([], none, s) && |Flat(none)| == 0;
    assert Greediest([], none, s);
  }

  /** What the star loop returns: the greatest choice for which the rest matches, and the rest's own result. */
  lemma {:induction false} StarIsLongest(rest: string, s: string, n: nat) returns (m: nat)
    requires n <= |s|
    ensures m <= n && forall i :: m < i <= n ==> Seg(rest, s[i..]) == -1
    ensures StarFrom(rest, s, n) == if Seg(rest, s[m..]) == -1 then -1 else m + Seg(rest, s[m..])
    ensures StarFrom(rest, s, n) == -1 ==> m == 0
  {
    hide Seg;
    m := n;
    if Seg(rest, s[n..]) == -1 && n > 0 {
      m := StarIsLongest(rest, s, n - 1);
    }
  }

  lemma StarGreedy(t: Token, rest: string, s: string, len: nat)
    requires t.Star? || t.DoubleStar?
    requires Takes(t, s, len) && forall m :: 0 <= m <= len ==> Greedy(Tokens(rest), s[m..], Seg(rest, s[m..]))
    ensures Greedy([t] + Tokens(rest), s, StarFrom(rest, s, len))
  {
    var m := StarIsLongest(rest, s, len);
    hide Takes, Fits, FitAll, Flat, Tokens, Seg, StarFrom, Splits, Greediest, Greedy;
    forall q | Splits([t] + Tokens(rest), q, s)
      ensures q != [] && |q[0]| <= m && Seg(rest, s[m..]) != -1
    {
      StarChoice(t, rest, s, len, q, m);
    }
    if Seg(rest, s[m..]) != -1 {
      StarFits(t, s, len, m);
      GreedyFirst(t, Tokens(rest), s, m, Seg(rest, s[m..]));
    } else {
      NoSplits([t] + Tokens(rest), s);
    }
  }

  lemma NoSplits(ts: seq<Token>, s: string)
    requires forall q :: !Splits(ts, q, s)
    ensures Greedy(ts, s, -1)
  {
    hide Splits;
  }

  lemma GreedyFirst(t: Token, ts: seq<Token>, s: string, m: nat, r: int)
    requires m <= |s| && Fits(t, s[..m]) && t != End && Greedy(ts, s[m..], r) && r >= 0
    requires forall q :: Splits([t] + ts, q, s) ==> q != [] && |q[0]| <= m
    ensures Greedy([t] + ts, s, m + r)
  {
    hide Fits, Splits, Greediest;
    var best :| Greediest(ts, best, s[m..]) && |Flat(best)| == r;
    GreedyCons(t, ts, s, m, best);
  }

  /** No fitting pieces give the star more than the loop does. */
  lemma StarChoice(t: Token, rest: string, s: string, len: nat, q: seq<string>, m: nat)
    requires Takes(t, s, len) && Splits([t] + Tokens(rest), q, s) && m <= len
    requires forall i :: 0 <= i <= len ==> Greedy(Tokens(rest), s[i..], Seg(rest, s[i..]))
    requires forall i :: m < i <= len ==> Seg(rest, s[i..]) == -1
    requires Seg(rest, s[m..]) == -1 ==> m == 0
    ensures q != [] && |q[0]| <= m && Seg(rest, s[m..]) != -1
  {
    hide Takes, Fits, FitAll, Flat, Tokens, Seg, Splits, Greediest;
    StarPiece(t, Tokens(rest), s, len, q);
    var n := |q[0]|;
    assert Greedy(Tokens(rest), s[n..], Seg(rest, s[n..]));
    assert Seg(rest, s[n..]) != -1;
  }

  lemma StarPiece(t: Token, ts: seq<Token>, s: string, len: nat, q: seq<string>)
    requires Takes(t, s, len) && Splits([t] + ts, q, s)
    ensures q != [] && |q[0]| <= len <= |s| && Splits(ts, q[1..], s[|q[0]|..])
  {
    hide FitAll, Flat;
    SplitUncons(t, ts, s, q);
  }

  lemma StarFits(t: Token, s: string, len: nat, m: nat)
    requires Takes(t, s, len) && m <= len
    ensures Fits(t, s[..m])
  {
  }

  lemma StarEndGreedy(t: Token, s: string, len: nat)
    requires t.Star? || t.DoubleStar?
    requires Takes(t, s, len)
    ensures Greedy([t], s, len)
  {
    hide Flat;
    GreedyNil(s[len..]);
    assert [t] + [] == [t];
    forall q | Splits([t] + [], q, s)
      ensures q != [] && |q[0]| <= len
    {
      SplitUncons(t, [], s, q);
    }
    GreedyCons(t, [], s, len, []);
    assert |Flat([])| == 0 by { FlatNone(); }
  }

  lemma FlatNone()
    ensures Flat([]) == []
  {
  }

  lemma OneGreedy(t: Token, ts: seq<Token>, s: string, r: int)
    requires t.Any? || t.Lit?
    requires s != [] && Fits(t, s[..1]) && Greedy(ts, s[1..], r) && r >= -1
    ensures Greedy([t] + ts, s, Shift(1, r))
  {
    hide FitAll, Flat;
    forall q | Splits([t] + ts, q, s)
      ensures q != [] && |q[0]| == 1 && r != -1
    {
      SplitUncons(t, ts, s, q);
    }
    if r != -1 {
      var best :| Greediest(ts, best, s[1..]) && |Flat(best)| == r;
      GreedyCons(t, ts, s, 1, best);
    }
  }

  lemma NoneGreedy(t: Token, ts: seq<Token>, s: string)
    requires t.Any? || t.Lit?
    requires s == [] || !Fits(t, s[..1])
    ensures Greedy([t] + ts, s, -1)
  {
    forall q ensures !Splits([t] + ts, q, s) {
      if Splits([t] + ts, q, s) {
        NotFirst(t, ts, s, q);
      }
    }
  }

  lemma NotFirst(t: Token, ts: seq<Token>, s: string, q: seq<string>)
    requires t.Any? || t.Lit?
    requires Splits([t] + ts, q, s)
    ensures s != [] && Fits(t, s[..1])
  {
    SplitUncons(t, ts, s, q);
  }

  lemma EndGreedy(s: string)
    ensures Greedy([End], s, if s == [] then 0 else -1)
  {
    hide FitAll, Flat, Fits;
    assert [End] + [] == [End];
    forall q | Splits([End], q, s)
      ensures q != [] && |q[0]| <= 0 && s == []
    {
      EndIsEmpty(q, s);
    }
    hide Splits;
    if s == [] {
      NothingFits();
      GreedyNil(s[0..]);
      FlatNone();
      GreedyCons(End, [], s, 0, []);
    } else {
      NoSplits([End], s);
    }
  }

  lemma NothingFits()
    ensures Fits(End, [])
  {
  }

  lemma EndIsEmpty(q: seq<string>, s: string)
    requires Splits([End], q, s)
    ensures q != [] && q[0] == [] && s == []
  {
    assert [End][0] == End && End in [End];
    assert Fits(End, q[0]) && q[1..] == [] && Flat(q[1..]) == [];
    assert Flat(q) == q[0] + Flat(q[1..]);
  }

  /** A pattern without alternatives: the result is the length of the greediest match. */
  lemma {:induction false} SegGreedy(p: string, s: string)
    ensures Greedy(Tokens(p), s, Seg(p, s))
    decreases |p|
  {
    hide Greedy;
    if p == [] {
      GreedyNil(s);
    } else if p[0] == '$' {
      EndGreedy(s);
    } else if p[0] == '*' {
      var (len, rest) := Reach(p, s);
      var t := if |p| > 1 && p[1] == '*' then DoubleStar else Star;
      ReachTakes(p, s);
      if rest == [] {
        StarEndGreedy(t, s, len);
        assert [t] + [] == [t];
      } else {
        forall m | 0 <= m <= len ensures Greedy(Tokens(rest), s[m..], Seg(rest, s[m..])) {
          SegGreedy(rest, s[m..]);
        }
        StarGreedy(t, rest, s, len);
      }
    } else {
      var t := if p[0] == '?' then Any else Lit(p[0]);
      if s == [] || (p[0] != '?' && p[0] != s[0]) {
        NoneGreedy(t, Tokens(p[1..]), s);
      } else {
        SegGreedy(p[1..], s[1..]);
        OneGreedy(t, Tokens(p[1..]), s, Seg(p[1..], s[1..]));
      }
    }
  }

  /** r belongs to alternative i: the first that matches a non-empty prefix, and the last one if none does. */
  ghost predicate Chosen(alternatives: seq<string>, s: string, r: int, i: nat) {
    && i < |alternatives| && Greedy(Tokens(alternatives[i]), s, r)
    && (forall j :: 0 <= j < i ==> !MatchesAlone(alternatives[j], s))
    && (r > 0 || i == |alternatives| - 1)
  }

  /** The result is the length of the greediest match of that alternative. */
  lemma {:induction false} MatchIsGreediest(p: string, s: string)
    ensures exists i :: Chosen(Alternatives(p), s, MatchPrefix(p, s), i)
    decreases |p|
  {
    hide Greedy, Tokens, MatchesAlone, Seg;
    match Bar(p)
    case None =>
      SegGreedy(p, s);
      assert Alternatives(p) == [p] && MatchPrefix(p, s) == Seg(p, s);
      assert Chosen([p], s, Seg(p, s), 0);
    case Some(k) =>
      var first, others := p[..k], Alternatives(p[k + 1..]);
      assert Bar(first) == None && MatchPrefix(first, s) == Seg(first, s);
      assert Alternatives(p) == [first] + others;
      assert MatchPrefix(p, s) == if Seg(first, s) > 0 then Seg(first, s) else MatchPrefix(p[k + 1..], s);
      SegAlone(first, s);
      hide Alternatives;
      if Seg(first, s) > 0 {
        SegGreedy(first, s);
        assert Chosen([first] + others, s, Seg(first, s), 0);
      } else {
        MatchIsGreediest(p[k + 1..], s);
        var i :| Chosen(others, s, MatchPrefix(p[k + 1..], s), i);
        ChosenLater(first, others, s, MatchPrefix(p[k + 1..], s), i);
      }
  }

  lemma ChosenLater(first: string, others: seq<string>, s: string, r: int, i: nat)
    requires Chosen(others, s, r, i) && !MatchesAlone(first, s)
    ensures Chosen([first] + others, s, r, i + 1)
  {
    hide Greedy, Tokens, MatchesAlone;
    var all := [first] + others;
    assert all[i + 1] == others[i] && forall j :: 1 <= j < i + 1 ==> all[j] == others[j - 1];
  }

  lemma SegAlone(p: string, s: string)
    ensures Seg(p, s) > 0 <==> MatchesAlone(p, s)
  {
    SegBest(p, s);
    hide Means, Tokens, Seg;
  }

  // Some patterns and what they match

  lemma DoubleStarTakesAll()
    ensures MatchPrefix("/**", "/a/b") == 4
  {
    assert "/**"[1..] == "**" && "**"[2..] == "" && "/a/b"[1..] == "a/b";
    assert Seg("**", "a/b") == 3;
  }

  lemma StarStopsAtSlash()
    ensures MatchPrefix("/*", "/a/b") == 2
  {
    assert "/*"[1..] == "*" && "*"[1..] == "" && "/a/b"[1..] == "a/b" && "a/b"[1..] == "/b";
    assert Span("a/b") == 1;
    assert Seg("*", "a/b") == 1;
  }

  lemma DollarIsTheEnd(s: string)
    ensures MatchPrefix("$", s) == if s == "" then 0 else -1
    ensures MatchPrefix("?", s) == if s == "" then -1 else 1
  {
    assert "?"[1..] == "" && Bar("$") == None && Bar("?") == None;
    if s != "" {
      assert Seg("", s[1..]) == 0 && Seg("?", s) == Shift(1, Seg("", s[1..]));
    }
  }

  /** The matcher as it runs: an index into each string, and a recursive call for what follows a star. */
  method Match(p: string, s: string) returns (r: int)
    ensures r == MatchPrefix(p, s)
    ensures r > 0 <==> Matches(p, s)
    ensures r <= |s|
    decreases |p|, 0
  {
    hide Means, Tokens, Matches, StarFrom;
    MatchIsRight(p, s);
    var bar := Bar(p);
    if bar.Some? {
      r := Match(p[..bar.value], s);
      if r <= 0 {
        r := Match(p[bar.value + 1..], s);
      }
      return;
    }
    var i, j := 0, 0;
    while i < |p|
      invariant i <= |p| && j <= |s|
      invariant Seg(p, s) == Shift(j, Seg(p[i..], s[j..]))
    {
      ghost var here, there := p[i..], s[j..];
      assert p[i + 1..] == here[1..];
      if p[i] == '?' && j < |s| {
        assert s[j + 1..] == there[1..];
      } else if p[i] == '$' {
        return if j == |s| then j else -1;
      } else if p[i] == '*' {
        i := i + 1;
        var len;
        if i < |p| && p[i] == '*' {
          i := i + 1;
          len := |s| - j;
        } else {
          len := Span(s[j..]);
        }
        assert Reach(here, there) == (len, p[i..]);
        if i == |p| {
          return j + len;
        }
        r := MatchStar(p[i..], s[j..], len);
        return if r == -1 then -1 else j + r;
      } else if j == |s| || p[i] != s[j] {
        return -1;
      } else {
        assert s[j + 1..] == there[1..];
      }
      i, j := i + 1, j + 1;
    }
    return j;
  }

  /** The star gives up one character after the other until the rest matches. */
  method MatchStar(rest: string, s: string, reach: nat) returns (r: int)
    requires reach <= |s| && '|' !in rest
    ensures r == StarFrom(rest, s, reach) && r <= |s|
    decreases |rest|, 1
  {
    var len := reach;
    r := Match(rest, s[len..]);
    while r == -1 && len > 0
      invariant len <= reach && r == Seg(rest, s[len..]) && r <= |s| - len
      invariant StarFrom(rest, s, reach) == StarFrom(rest, s, len)
    {
      len := len - 1;
      r := Match(rest, s[len..]);
    }
    r := if r == -1 then -1 else len + r;
  }
}
