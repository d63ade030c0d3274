/** The scan shared by `re.findall` and `re.sub`: from a table giving, for
    each index of a text, where the match the engine reports there ends (if
    any), the leftmost match is taken, and the search resumes where it
    ended. Every expression the scripts scan for matches only non-empty
    text, so each step makes progress. */
module Substitution {
  import opened Text

  /** The values of `f` at `lo`, `lo + 1`, ..., `hi - 1`. */
  function Tabulate<T>(f: nat -> T, lo: nat, hi: nat): (t: seq<T>)
    requires lo <= hi
    ensures |t| == hi - lo
    ensures forall k :: 0 <= k < |t| ==> t[k] == f(lo + k)
    decreases hi - lo
  {
    if lo == hi then [] else [f(lo)] + Tabulate(f, lo + 1, hi)
  }

  /** A table of match ends for a text of length `|t| - 1`: every match
      ends after it starts and within the text. */
  predicate Table(t: seq<Option<nat>>) {
    forall k :: 0 <= k < |t| && t[k].Some? ==> k < t[k].value < |t|
  }

  /** The leftmost match at or after `from`, as `re.search` finds it, as
      its start and end. */
  function NextIn(t: seq<Option<nat>>, from: nat): (r: Option<(nat, nat)>)
    requires from <= |t|
    ensures r.Some? ==> from <= r.value.0 < |t| && t[r.value.0] == Some(r.value.1)
    ensures r.Some? ==> forall k :: from <= k < r.value.0 ==> t[k].None?
    ensures r.None? ==> forall k :: from <= k < |t| ==> t[k].None?
    decreases |t| - from
  {
    if from == |t| then None
    else match t[from]
      case Some(e) => Some((from, e))
      case None => NextIn(t, from + 1)
  }

  /** The successive non-overlapping matches from `from`, as `(start, end)`
      pairs: each search resumes where the previous match ended. */
  function MatchesIn(t: seq<Option<nat>>, from: nat): (r: seq<(nat, nat)>)
    requires Table(t) && from < |t|
    ensures r == [] <==> NextIn(t, from).None?
    ensures Ordered(r, from, |t| - 1)
    decreases |t| - from
  {
    match NextIn(t, from)
    case None => []
    case Some((i, e)) =>
      var rest := MatchesIn(t, e);
      assert ([(i, e)] + rest)[1..] == rest;
      [(i, e)] + rest
  }

  /** `spans` lie in order from `from` on without overlap, none past `n`. */
  predicate Ordered(spans: seq<(nat, nat)>, from: nat, n: nat)
    decreases |spans|
  {
    spans == [] || (from <= spans[0].0 <= spans[0].1 <= n && Ordered(spans[1..], spans[0].1, n))
  }

  /** `r` lists matches of the table `t`, each at its start and none
      before `from`, in order and without overlap. */
  predicate MatchList(t: seq<Option<nat>>, r: seq<(nat, nat)>, from: nat) {
    (forall k :: 0 <= k < |r| ==> from <= r[k].0 < r[k].1 < |t| && t[r[k].0] == Some(r[k].1))
    && (forall k :: 0 <= k < |r| - 1 ==> r[k].1 <= r[k + 1].0)
  }

  /** Every listed match is the table's match at its start, the matches lie
      in order without overlap, and none starts before `from`. */
  lemma {:induction false} MatchesInOrder(t: seq<Option<nat>>, from: nat)
    requires Table(t) && from < |t|
    ensures MatchList(t, MatchesIn(t, from), from)
    decreases |t| - from
  {
    match NextIn(t, from)
    case None =>
    case Some((i, e)) =>
      var r := MatchesIn(t, from);
      var rest := MatchesIn(t, e);
      assert r == [(i, e)] + rest;
      MatchesInOrder(t, e);
      Cons((i, e), rest);
      forall k | 0 <= k < |r|
        ensures from <= r[k].0 < r[k].1 < |t| && t[r[k].0] == Some(r[k].1)
      {
        if k > 0 {
          assert r[k] == rest[k - 1];
        }
      }
      forall k | 0 <= k < |r| - 1
        ensures r[k].1 <= r[k + 1].0
      {
        assert r[k + 1] == rest[k];
        if k > 0 {
          assert r[k] == rest[k - 1];
        }
      }
  }

  /** No match the engine could report is skipped: every index from `from`
      on at which a match starts lies inside one of the listed matches. */
  lemma {:induction false} Covered(t: seq<Option<nat>>, from: nat, k: nat)
    requires Table(t) && from <= k < |t| && t[k].Some?
    ensures exists m :: m in MatchesIn(t, from) && m.0 <= k < m.1
    decreases |t| - from
  {
    var n := NextIn(t, from);
    assert n.Some?;
    var (i, e) := n.value;
    assert MatchesIn(t, from) == [(i, e)] + MatchesIn(t, e);
    if k < e {
      assert (i, e) in MatchesIn(t, from);
    } else {
      Covered(t, e, k);
      var m :| m in MatchesIn(t, e) && m.0 <= k < m.1;
      assert m in MatchesIn(t, from);
    }
  }

  /** Prepending an element to a sequence: its elements are the new one and
      those of the old sequence, one place further on. */
  lemma Cons<T>(x: T, rest: seq<T>)
    ensures ([x] + rest)[0] == x
    ensures forall k :: 1 <= k < |rest| + 1 ==> ([x] + rest)[k] == rest[k - 1]
  {
  }

  /** The text from `from` with each of `spans` replaced by `f` of its text,
      and the text between the spans kept as it is. */
  function Spliced(s: string, spans: seq<(nat, nat)>, f: string -> string, from: nat): string
    requires from <= |s| && Ordered(spans, from, |s|)
    decreases |spans|
  {
    if spans == [] then s[from..]
    else s[from..spans[0].0] + f(s[spans[0].0..spans[0].1]) + Spliced(s, spans[1..], f, spans[0].1)
  }

  /** `re.sub` with the replacement function `f`, from `from`: each match is
      replaced by `f` of its text, the text between matches is kept. */
  function SubstituteIn(s: string, t: seq<Option<nat>>, f: string -> string, from: nat): (r: string)
    requires Table(t) && |t| == |s| + 1 && from <= |s|
    ensures r == Spliced(s, MatchesIn(t, from), f, from)
    decreases |s| - from
  {
    match NextIn(t, from)
    case None => s[from..]
    case Some((i, e)) =>
      var rest := MatchesIn(t, e);
      assert MatchesIn(t, from) == [(i, e)] + rest;
      assert ([(i, e)] + rest)[1..] == rest;
      s[from..i] + f(s[i..e]) + SubstituteIn(s, t, f, e)
  }

  /** A table with a single match, at `p` and ending at `e`: the text before
      and after it is kept, and the match is replaced by `f` of its text. */
  lemma SubstituteOne(s: string, t: seq<Option<nat>>, f: string -> string, p: nat, e: nat)
    requires Table(t) && |t| == |s| + 1 && p < |t| && t[p] == Some(e)
    requires forall k :: 0 <= k < |t| && k != p ==> t[k].None?
    ensures SubstituteIn(s, t, f, 0) == s[..p] + f(s[p..e]) + s[e..]
  {
    assert NextIn(t, 0) == Some((p, e));
    assert NextIn(t, e).None?;
    assert MatchesIn(t, 0) == [(p, e)] + MatchesIn(t, e) == [(p, e)];
    assert [(p, e)][1..] == [];
  }

  /** Where `f` leaves every match as it is, the substitution changes
      nothing. */
  lemma SubstituteUnchanged(s: string, t: seq<Option<nat>>, f: string -> string, from: nat)
    requires Table(t) && |t| == |s| + 1 && from <= |s|
    requires forall m :: m in MatchesIn(t, from) ==> m.0 <= m.1 <= |s| && f(s[m.0..m.1]) == s[m.0..m.1]
    ensures SubstituteIn(s, t, f, from) == s[from..]
  {
    SplicedUnchanged(s, MatchesIn(t, from), f, from);
  }

  /** Splicing in spans that `f` leaves as they are gives the text back. */
  lemma {:induction false} SplicedUnchanged(s: string, spans: seq<(nat, nat)>, f: string -> string, from: nat)
    requires from <= |s| && Ordered(spans, from, |s|)
    requires forall m :: m in spans ==> m.0 <= m.1 <= |s| && f(s[m.0..m.1]) == s[m.0..m.1]
    ensures Spliced(s, spans, f, from) == s[from..]
    decreases |spans|
  {
    if spans != [] {
      var (i, e) := spans[0];
      assert spans[0] in spans;
      forall m | m in spans[1..] ensures m.0 <= m.1 <= |s| && f(s[m.0..m.1]) == s[m.0..m.1] {
        assert m in spans;
      }
      SplicedUnchanged(s, spans[1..], f, e);
      assert s[from..i] + s[i..e] + s[e..] == s[from..];
    }
  }
}
