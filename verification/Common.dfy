/** Small value types and sequence facts shared by the models. */
module Common {

  datatype Option<+T> = None | Some(value: T)

  datatype Result<+T, +E> = Ok(value: T) | Err(error: E)

  ghost predicate NoDup<T>(s: seq<T>) {
    forall i, j :: 0 <= i < j < |s| ==> s[i] != s[j]
  }

  /** The position of `x` in `s`, or `|s|` when it is absent. */
  function IndexOf<T(==)>(s: seq<T>, x: T): (i: nat)
    ensures i <= |s|
    ensures x in s <==> i < |s|
    ensures i < |s| ==> s[i] == x
    ensures x !in s[..i]
  {
    if |s| == 0 then 0
    else if s[0] == x then 0
    else
      assert s == [s[0]] + s[1..];
      1 + IndexOf(s[1..], x)
  }

  function RemoveAt<T>(s: seq<T>, i: nat): (r: seq<T>)
    requires i < |s|
    ensures |r| == |s| - 1
    ensures forall j :: 0 <= j < i ==> r[j] == s[j]
    ensures forall j :: i <= j < |r| ==> r[j] == s[j + 1]
  {
    s[..i] + s[i + 1..]
  }

  function MoveToFront<T>(s: seq<T>, i: nat): (r: seq<T>)
    requires i < |s|
    ensures |r| == |s|
    ensures r[0] == s[i]
    ensures forall j :: 1 <= j <= i ==> r[j] == s[j - 1]
    ensures forall j :: i < j < |r| ==> r[j] == s[j]
  {
    [s[i]] + RemoveAt(s, i)
  }

  function ToSet<T>(s: seq<T>): set<T> {
    set x | x in s
  }

  lemma {:induction false} NoDupCardinality<T>(s: seq<T>)
    requires NoDup(s)
    ensures |ToSet(s)| == |s|
  {
    if |s| != 0 {
      var t := s[..|s| - 1];
      NoDupCardinality(t);
      assert ToSet(s) == ToSet(t) + {s[|s| - 1]};
    }
  }

  ghost predicate MovedToFront<T>(s: seq<T>, t: seq<T>, i: nat) {
    && i < |s| == |t|
    && t[0] == s[i]
    && (forall j :: 1 <= j <= i ==> t[j] == s[j - 1])
    && (forall j :: i < j < |t| ==> t[j] == s[j])
  }

  ghost predicate Removed<T>(s: seq<T>, t: seq<T>, i: nat) {
    && i < |s| == |t| + 1
    && (forall j :: 0 <= j < i ==> t[j] == s[j])
    && (forall j :: i <= j < |t| ==> t[j] == s[j + 1])
  }

  lemma MovedKeepsElements<T>(s: seq<T>, t: seq<T>, i: nat)
    requires NoDup(s) && MovedToFront(s, t, i)
    ensures NoDup(t)
    ensures forall x :: x in s ==> x in t
  {
    forall x | x in s ensures x in t {
      var k :| 0 <= k < |s| && s[k] == x;
      assert t[if k == i then 0 else if k < i then k + 1 else k] == x;
    }
  }

  lemma RemovedKeepsElements<T>(s: seq<T>, t: seq<T>, i: nat)
    requires NoDup(s) && Removed(s, t, i)
    ensures NoDup(t)
    ensures forall x :: x in s && x != s[i] ==> x in t
  {
    forall x | x in s && x != s[i] ensures x in t {
      var k :| 0 <= k < |s| && s[k] == x;
      assert t[if k < i then k else k - 1] == x;
    }
  }

  lemma InAppend<T>(s: seq<T>, x: T)
    ensures forall y :: y in s + [x] <==> y in s || y == x
  {
    assert (s + [x])[|s|] == x;
    forall y | y in s ensures y in s + [x] {
      var i :| 0 <= i < |s| && s[i] == y;
      assert (s + [x])[i] == y;
    }
  }

  // ---------- Counting ----------

  function Iota(n: nat): (s: seq<nat>)
    ensures |s| == n && forall i :: 0 <= i < n ==> s[i] == i
  {
    seq(n, i requires 0 <= i < n => i)
  }

  lemma IotaStep(c: nat)
    ensures Iota(c + 1) == Iota(c) + [c]
  {
  }

  lemma IotaHas(n: nat)
    ensures forall x: nat :: x in ToSet(Iota(n)) <==> x < n
  {
    forall x: nat | x < n ensures x in Iota(n) {
      assert Iota(n)[x] == x;
    }
  }

  lemma ShortSetRepeatsNothing<T>(s: seq<T>)
    requires |ToSet(s)| == |s|
    ensures NoDup(s)
  {
    forall i, j | 0 <= i < j < |s| ensures s[i] != s[j] {
      if s[i] == s[j] {
        var t := RemoveAt(s, j);
        assert t[i] == s[i];
        forall x | x in s ensures x in t {
          var k :| 0 <= k < |s| && s[k] == x;
          assert t[if k < j then k else if k == j then i else k - 1] == x;
        }
        assert ToSet(t) == ToSet(s);
        SetIsShort(t);
      }
    }
  }

  lemma {:induction false} SetIsShort<T>(s: seq<T>)
    ensures |ToSet(s)| <= |s|
  {
    if |s| != 0 {
      var t := s[..|s| - 1];
      SetIsShort(t);
      assert ToSet(s) == ToSet(t) + {s[|s| - 1]};
    }
  }

  /** `n` different numbers below `n` are all of them. */
  lemma NoDupCovers(s: seq<nat>, x: nat)
    requires NoDup(s) && (forall i :: 0 <= i < |s| ==> s[i] < |s|) && x < |s|
    ensures x in s
  {
    NoDupCardinality(s);
    NoDupCardinality(Iota(|s|));
    IotaHas(|s|);
    var all, got := ToSet(Iota(|s|)), ToSet(s);
    assert got <= all;
    assert all == got + (all - got);
    assert |all - got| == 0;
    assert x in all;
  }

  /** A sequence that covers every number below its length repeats none. */
  lemma CoverRepeatsNothing(s: seq<nat>)
    requires forall y: nat :: y < |s| ==> y in s
    ensures NoDup(s) && forall i :: 0 <= i < |s| ==> s[i] < |s|
  {
    NoDupCardinality(Iota(|s|));
    IotaHas(|s|);
    SetIsShort(s);
    assert ToSet(Iota(|s|)) <= ToSet(s);
    var extra := ToSet(s) - ToSet(Iota(|s|));
    assert ToSet(s) == ToSet(Iota(|s|)) + extra;
    assert |extra| == 0;
    ShortSetRepeatsNothing(s);
    forall i | 0 <= i < |s| ensures s[i] < |s| {
      assert s[i] in ToSet(s);
    }
  }
}
