/** `Array.prototype.find`/`findIndex`/`filter`, the list operations the
    store and the pages are written with. */
module Seqs {
  import opened Wrappers

  /** `findIndex`: the first position whose element satisfies `p`. */
  function FindFirst<T>(s: seq<T>, p: T -> bool): (r: Option<nat>)
    ensures r.Some? ==> r.value < |s| && p(s[r.value]) && forall j :: 0 <= j < r.value ==> !p(s[j])
    ensures r.None? <==> forall j :: 0 <= j < |s| ==> !p(s[j])
  {
    if s == [] then None
    else if p(s[0]) then Some(0)
    else match FindFirst(s[1..], p)
      case None => None
      case Some(i) => Some(i + 1)
  }

  /** `FindFirst` is the only position satisfying its contract. */
  lemma FindFirstAt<T>(s: seq<T>, p: T -> bool, i: nat)
    requires i < |s| && p(s[i]) && forall j :: 0 <= j < i ==> !p(s[j])
    ensures FindFirst(s, p) == Some(i)
  {
  }

  /** `filter`: the elements satisfying `p`, in their original order. */
  function Filter<T>(s: seq<T>, p: T -> bool): (r: seq<T>)
    ensures |r| <= |s|
    ensures forall i :: 0 <= i < |r| ==> p(r[i])
  {
    if s == [] then []
    else if p(s[0]) then [s[0]] + Filter(s[1..], p)
    else Filter(s[1..], p)
  }

  /** Filtering distributes over concatenation, so the kept elements stay in order. */
  lemma {:induction false} FilterAppend<T>(s: seq<T>, t: seq<T>, p: T -> bool)
    ensures Filter(s + t, p) == Filter(s, p) + Filter(t, p)
  {
    if s == [] {
      assert s + t == t;
    } else {
      assert (s + t)[0] == s[0];
      assert (s + t)[1..] == s[1..] + t;
      FilterAppend(s[1..], t, p);
    }
  }

  /** Filtering keeps a list whose every element passes. */
  lemma {:induction false} FilterKeepsAll<T>(s: seq<T>, p: T -> bool)
    requires forall i :: 0 <= i < |s| ==> p(s[i])
    ensures Filter(s, p) == s
  {
    if s != [] {
      FilterKeepsAll(s[1..], p);
    }
  }

  /** Filtering out the one failing element removes it and keeps the rest in order. */
  lemma {:induction false} FilterDropsOne<T>(s: seq<T>, p: T -> bool, k: nat)
    requires k < |s| && !p(s[k])
    requires forall i :: 0 <= i < |s| && i != k ==> p(s[i])
    ensures Filter(s, p) == s[..k] + s[k + 1..]
  {
    var t := s[1..];
    if k == 0 {
      FilterKeepsSuffix(s, p, 1);
    } else {
      forall i | 0 <= i < |t| && i != k - 1 ensures p(t[i]) {
        assert t[i] == s[i + 1];
      }
      FilterDropsOne(t, p, k - 1);
      assert s[..k] + s[k + 1..] == [s[0]] + (t[..k - 1] + t[k..]);
    }
  }

  /** A suffix whose every element passes is kept whole. */
  lemma FilterKeepsSuffix<T>(s: seq<T>, p: T -> bool, k: nat)
    requires k <= |s| && forall i :: k <= i < |s| ==> p(s[i])
    ensures Filter(s[k..], p) == s[k..]
  {
    var t := s[k..];
    forall i | 0 <= i < |t| ensures p(t[i]) {
      assert t[i] == s[k + i];
    }
    FilterKeepsAll(t, p);
  }

  /** Filtering keeps every occurrence of a passing element and none of a failing one. */
  lemma {:induction false} FilterCount<T>(s: seq<T>, p: T -> bool, x: T)
    ensures multiset(Filter(s, p))[x] == if p(x) then multiset(s)[x] else 0
  {
    if s != [] {
      FilterCount(s[1..], p, x);
      assert s == [s[0]] + s[1..];
    }
  }

  /** `map` with a callback that may throw: the first element whose callback
      fails decides the failure, otherwise every element is mapped. */
  function MapResult<A, B, E>(s: seq<A>, f: A -> Result<B, E>): (r: Result<seq<B>, E>)
    ensures r.Ok? <==> forall i :: 0 <= i < |s| ==> f(s[i]).Ok?
    ensures r.Ok? ==> |r.value| == |s| && forall i :: 0 <= i < |s| ==> r.value[i] == f(s[i]).value
    ensures r.Err? ==> exists i :: 0 <= i < |s| && f(s[i]).Err? && r.error == f(s[i]).error
                                   && forall j :: 0 <= j < i ==> f(s[j]).Ok?
  {
    if s == [] then Ok([])
    else match f(s[0])
      case Err(e) => Err(e)
      case Ok(b) =>
        match MapResult(s[1..], f)
        case Err(e) =>
          ghost var k :| 0 <= k < |s[1..]| && f(s[1..][k]).Err? && e == f(s[1..][k]).error
                         && forall j :: 0 <= j < k ==> f(s[1..][j]).Ok?;
          assert s[k + 1] == s[1..][k];
          assert forall j :: 1 <= j <= k ==> s[j] == s[1..][j - 1];
          Err(e)
        case Ok(rest) => Ok([b] + rest)
  }

  /** `map` then `filter` through an optional result: the values `f` gives,
      in order, skipping the elements it gives none for. */
  function Choose<A, B>(s: seq<A>, f: A -> Option<B>): (r: seq<B>)
    ensures |r| <= |s|
  {
    if s == [] then []
    else match f(s[0])
      case Some(b) => [b] + Choose(s[1..], f)
      case None => Choose(s[1..], f)
  }

  /** What `Choose` keeps is exactly what `f` gives for some element. */
  lemma {:induction false} ChooseMember<A, B>(s: seq<A>, f: A -> Option<B>, b: B)
    ensures b in Choose(s, f) <==> exists i :: 0 <= i < |s| && f(s[i]) == Some(b)
  {
    if s != [] {
      ChooseMember(s[1..], f, b);
      if exists i :: 0 <= i < |s[1..]| && f(s[1..][i]) == Some(b) {
        var i :| 0 <= i < |s[1..]| && f(s[1..][i]) == Some(b);
        assert s[i + 1] == s[1..][i];
      }
      if exists i :: 0 <= i < |s| && f(s[i]) == Some(b) {
        var i :| 0 <= i < |s| && f(s[i]) == Some(b);
        if i > 0 {
          assert s[1..][i - 1] == s[i];
        }
      }
    }
  }

  /** `Choose` gives nothing exactly when `f` gives nothing for every element. */
  lemma {:induction false} ChooseEmpty<A, B>(s: seq<A>, f: A -> Option<B>)
    ensures Choose(s, f) == [] <==> forall i :: 0 <= i < |s| ==> f(s[i]).None?
  {
    if s != [] {
      ChooseEmpty(s[1..], f);
      assert forall i :: 1 <= i < |s| ==> s[i] == s[1..][i - 1];
    }
  }

  /** Choosing over a concatenation chooses over each part. */
  lemma {:induction false} ChooseAppend<A, B>(s: seq<A>, t: seq<A>, f: A -> Option<B>)
    ensures Choose(s + t, f) == Choose(s, f) + Choose(t, f)
  {
    if s == [] {
      assert s + t == t;
    } else {
      assert (s + t)[0] == s[0];
      assert (s + t)[1..] == s[1..] + t;
      ChooseAppend(s[1..], t, f);
    }
  }
}
