/**
 * The virtual desktops as the provider library keeps them: an ordered list of
 * desktop identities with one of them displayed. The manager's `Start` trims or
 * grows this list to the size of the grid and numbers the desktops in order.
 */
module Desktops {
  import opened Windows

  /** No desktop appears twice. */
  predicate Distinct(ds: seq<DesktopId>)
  {
    forall i, j :: 0 <= i < j < |ds| ==> ds[i] != ds[j]
  }

  /** Where `d` first occurs in `ds`. */
  function FirstIndex(ds: seq<DesktopId>, d: DesktopId): (k: nat)
    requires d in ds
    ensures k < |ds| && ds[k] == d && d !in ds[..k]
  {
    if ds[0] == d then 0
    else
      assert d in ds[1..];
      var k := FirstIndex(ds[1..], d);
      assert ds[..k + 1] == [ds[0]] + ds[1..][..k];
      k + 1
  }

  /** `List.Remove`: the list without the first occurrence of `d`, the others
      in their order; the list itself when `d` does not occur. */
  function Erase(ds: seq<DesktopId>, d: DesktopId): (r: seq<DesktopId>)
    ensures d in ds ==> |r| == |ds| - 1
    ensures d !in ds ==> r == ds
    ensures forall e :: e in r ==> e in ds
  {
    if ds == [] then []
    else if ds[0] == d then ds[1..]
    else [ds[0]] + Erase(ds[1..], d)
  }

  /** What `Erase` takes out is the first occurrence of `d`: the desktops before
      it and after it are kept, in their order. */
  lemma {:induction false} EraseFirstOccurrence(ds: seq<DesktopId>, d: DesktopId)
    requires d in ds
    ensures Erase(ds, d) == ds[..FirstIndex(ds, d)] + ds[FirstIndex(ds, d) + 1..]
  {
    if ds[0] != d {
      assert ds == [ds[0]] + ds[1..];
      EraseFirstOccurrence(ds[1..], d);
      var k := FirstIndex(ds[1..], d);
      assert ds[..k + 1] == [ds[0]] + ds[1..][..k];
      assert ds[k + 2..] == ds[1..][k + 1..];
    }
  }

  /** `Erase` takes exactly one `d` out of the bag of desktops, and nothing else. */
  lemma {:induction false} EraseRemovesOne(ds: seq<DesktopId>, d: DesktopId)
    ensures multiset(Erase(ds, d)) == multiset(ds) - multiset{d}
  {
    if ds != [] {
      var head, tail := ds[0], ds[1..];
      assert ds == [head] + tail;
      assert multiset(ds) == multiset{head} + multiset(tail);
      if head != d {
        EraseRemovesOne(tail, d);
        assert multiset(Erase(ds, d)) == multiset{head} + multiset(Erase(tail, d));
      }
    }
  }

  /** Erasing from a list without repetitions leaves every other desktop and
      loses `d` itself. */
  lemma {:induction false} EraseDistinct(ds: seq<DesktopId>, d: DesktopId)
    requires Distinct(ds)
    ensures Distinct(Erase(ds, d))
    ensures forall e :: e in Erase(ds, d) <==> e in ds && e != d
  {
    if ds != [] && ds[0] != d {
      EraseDistinct(ds[1..], d);
      var r := Erase(ds[1..], d);
      assert Erase(ds, d) == [ds[0]] + r;
      assert ds[0] !in r;
    } else if ds != [] {
      assert forall e :: e in ds[1..] ==> e != ds[0];
    }
  }

  /** Erasing the last desktop of a list without repetitions leaves the others,
      in order: this is how `Start` trims the list. */
  lemma {:induction false} EraseLast(ds: seq<DesktopId>)
    requires Distinct(ds) && |ds| > 0
    ensures Erase(ds, ds[|ds| - 1]) == ds[..|ds| - 1]
  {
    if |ds| > 1 {
      EraseLast(ds[1..]);
      assert ds[1..][|ds| - 2] == ds[|ds| - 1];
      assert ds[1..][..|ds| - 2] == ds[1..|ds| - 1];
      assert ds[..|ds| - 1] == [ds[0]] + ds[1..|ds| - 1];
    }
  }

  /** The desktop-to-index dictionary of `Start`: every desktop of `ds`, and
      nothing else, maps to its position. */
  ghost predicate IsLookupOf(lookup: map<DesktopId, int>, ds: seq<DesktopId>)
  {
    (forall d :: d in lookup <==> d in ds) &&
    (forall i :: 0 <= i < |ds| ==> ds[i] in lookup && lookup[ds[i]] == i)
  }

  /** The lookup is a bijection between the desktops and `0 .. |ds|`, so the
      list has no repetitions. */
  lemma LookupIsBijection(lookup: map<DesktopId, int>, ds: seq<DesktopId>)
    requires IsLookupOf(lookup, ds)
    ensures Distinct(ds)
    ensures forall d :: d in lookup ==> 0 <= lookup[d] < |ds| && ds[lookup[d]] == d
  {
    forall d | d in lookup
      ensures 0 <= lookup[d] < |ds| && ds[lookup[d]] == d
    {
      var i :| 0 <= i < |ds| && ds[i] == d;
    }
  }

  /** `Start`'s lookup: each desktop numbered by its position in the list. */
  method BuildLookup(ds: seq<DesktopId>) returns (lookup: map<DesktopId, int>)
    requires Distinct(ds)
    ensures IsLookupOf(lookup, ds)
  {
    lookup := map[];
    var index := 0;
    while index < |ds|
      invariant 0 <= index <= |ds|
      invariant forall d :: d in lookup <==> d in ds[..index]
      invariant forall i :: 0 <= i < index ==> ds[i] in lookup && lookup[ds[i]] == i
    {
      lookup := lookup[ds[index] := index];
      index := index + 1;
    }
    assert ds[..index] == ds;
  }

  /** The provider: its desktops in order, the displayed one, and the next
      identity it hands out for a new desktop. */
  class DesktopProvider {
    /** `VirtualDesktop.IsSupported`. */
    const supported: bool
    var desktops: seq<DesktopId>
    var current: DesktopId
    var nextId: DesktopId

    ghost predicate Valid()
      reads this
    {
      Distinct(desktops) && current in desktops &&
      forall i :: 0 <= i < |desktops| ==> desktops[i] < nextId
    }

    /** A provider showing the first of `count` desktops. */
    constructor (supported: bool, count: nat)
      requires count >= 1
      ensures Valid() && this.supported == supported
      ensures |desktops| == count && current == desktops[0]
    {
      this.supported := supported;
      desktops := seq(count, i => i);
      current := 0;
      nextId := count;
      new;
      assert desktops[0] == 0;
    }

    /** `VirtualDesktop.Create`: a new desktop after the others. */
    method Create() returns (d: DesktopId)
      requires Valid()
      modifies this`desktops, this`nextId
      ensures Valid()
      ensures d !in old(desktops) && desktops == old(desktops) + [d]
    {
      d := nextId;
      desktops := desktops + [d];
      nextId := nextId + 1;
    }

    /** `VirtualDesktop.Remove()`: the fallback is the first other desktop, or
        a new one when `d` is the only desktop; the fallback is displayed when
        `d` was. */
    method Remove(d: DesktopId)
      requires Valid() && d in desktops
      modifies this`desktops, this`nextId, this`current
      ensures Valid()
      ensures |old(desktops)| > 1 ==> desktops == Erase(old(desktops), d)
      ensures |old(desktops)| == 1 ==> |desktops| == 1 && desktops[0] != d
      ensures old(current) != d ==> current == old(current)
      ensures old(current) == d && |old(desktops)| > 1 ==>
        current == (if old(desktops)[0] != d then old(desktops)[0] else old(desktops)[1])
    {
      var fallback;
      if desktops[0] != d {
        fallback := desktops[0];
      } else if |desktops| > 1 {
        fallback := desktops[1];
      } else {
        fallback := Create();
      }
      var before := desktops;
      EraseDistinct(before, d);
      desktops := Erase(before, d);
      assert forall i :: 0 <= i < |desktops| ==> desktops[i] in before;
      if current == d {
        current := fallback;
      }
    }
  }
}
