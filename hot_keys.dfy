/**
 * Which desktop each number hotkey switches to (and moves the foreground
 * window to). Only the index arithmetic is modelled; registering the keys
 * with the operating system is not.
 */
module HotKeys {
  import opened CSharpInt
  import opened GridNavigation

  /** The family of keys the number hotkeys use: D1..D9, F1..F12 or NumPad1..NumPad9. */
  datatype KeyKind = DigitKey | FunctionKey | NumPadKey

  /** One registered number hotkey: which key, and which desktop it targets. */
  datatype Binding = Binding(kind: KeyKind, keyNumber: int, desktopIndex: int)

  /** Numeric-keypad layout: 7 8 9 is the top row of the grid, 1 2 3 the third. */
  function NumPadIndex(keyNumber: int): int
  {
    (2 - Quot(keyNumber - 1, 3)) * 3 + Rem(keyNumber - 1, 3)
  }

  /** The keypad layout read back: the key that lands on desktop `index`. */
  function KeyForDesktop(index: int): int
  {
    (2 - index / 3) * 3 + index % 3 + 1
  }

  /** Key `k` of the keypad, for the nine keys there are. */
  lemma {:induction false} NumPadKeyLands(k: int)
    requires 1 <= k <= 9
    ensures NumPadIndex(k) == (2 - (k - 1) / 3) * 3 + (k - 1) % 3
    ensures 0 <= NumPadIndex(k) <= 8 && KeyForDesktop(NumPadIndex(k)) == k
  {
    NonNegativeAgrees(k - 1, 3);
    var row, column := (k - 1) / 3, (k - 1) % 3;
    DivModOf(k - 1, 3, row, column);
    var index := (2 - row) * 3 + column;
    DivModOf(index, 3, 2 - row, column);
  }

  /** Keys 1..9 of the keypad land on the nine desktops 0..8, one each, and
      `KeyForDesktop` names the key for each desktop. */
  lemma NumPadIsBijective()
    ensures forall k :: 1 <= k <= 9 ==> 0 <= NumPadIndex(k) <= 8 && KeyForDesktop(NumPadIndex(k)) == k
    ensures forall i :: 0 <= i <= 8 ==> 1 <= KeyForDesktop(i) <= 9 && NumPadIndex(KeyForDesktop(i)) == i
  {
    forall k | 1 <= k <= 9
      ensures 0 <= NumPadIndex(k) <= 8 && KeyForDesktop(NumPadIndex(k)) == k
    {
      NumPadKeyLands(k);
    }
    forall i | 0 <= i <= 8
      ensures 1 <= KeyForDesktop(i) <= 9 && NumPadIndex(KeyForDesktop(i)) == i
    {
      var row, column := i / 3, i % 3;
      var k := KeyForDesktop(i);
      DivModOf(k - 1, 3, 2 - row, column);
      NumPadKeyLands(k);
    }
  }

  /** The corners of the keypad. */
  lemma NumPadCorners()
    ensures NumPadIndex(7) == 0 && NumPadIndex(9) == 2
    ensures NumPadIndex(1) == 6 && NumPadIndex(3) == 8
  {
  }

  function KeyKindOf(numPad: bool, fKeys: bool): KeyKind
  {
    if numPad then NumPadKey else if fKeys then FunctionKey else DigitKey
  }

  /** How many number keys are bound: the number of desktops, but no more than
      the keys there are (nine keypad or digit keys, twelve function keys). */
  function KeyLimit(g: Grid, numPad: bool, fKeys: bool): int
  {
    var keys := if numPad then 9 else if fKeys then 12 else 9;
    if DesktopCount(g) < keys then DesktopCount(g) else keys
  }

  function DesktopForKey(numPad: bool, keyNumber: int): int
  {
    if numPad then NumPadIndex(keyNumber) else keyNumber - 1
  }

  /** Some binding of `bs` is for key `k`. */
  predicate BindsKey(bs: seq<Binding>, k: int)
  {
    exists i :: 0 <= i < |bs| && bs[i].keyNumber == k
  }

  /** Bindings numbered 1, 2, ... in order bind exactly the keys 1 to their count. */
  lemma NumberedFromOne(bs: seq<Binding>)
    requires forall i :: 0 <= i < |bs| ==> bs[i].keyNumber == i + 1
    ensures forall k :: BindsKey(bs, k) <==> 1 <= k <= |bs|
  {
    forall k | 1 <= k <= |bs|
      ensures BindsKey(bs, k)
    {
      assert bs[k - 1].keyNumber == k;
    }
  }

  /** The number hotkeys as the registration loop creates them: keys 1 to the
      limit, each bound once, of the configured kind, to its desktop. */
  function Bindings(g: Grid, numPad: bool, fKeys: bool): (r: seq<Binding>)
    ensures forall k :: BindsKey(r, k) <==> 1 <= k <= KeyLimit(g, numPad, fKeys)
    ensures forall i, j :: 0 <= i < j < |r| ==> r[i].keyNumber != r[j].keyNumber
    ensures forall i :: 0 <= i < |r| ==>
      r[i].kind == KeyKindOf(numPad, fKeys) && r[i].desktopIndex == DesktopForKey(numPad, r[i].keyNumber)
  {
    var limit := KeyLimit(g, numPad, fKeys);
    var n := if limit < 0 then 0 else limit;
    var r := seq(n, i => Binding(KeyKindOf(numPad, fKeys), i + 1, DesktopForKey(numPad, i + 1)));
    NumberedFromOne(r);
    r
  }

  /** Digit and function keys always target a desktop of the grid, key n the
      desktop n - 1. */
  lemma PlainKeysInGrid(g: Grid, fKeys: bool)
    requires ValidGrid(g)
    ensures var bs := Bindings(g, false, fKeys);
      forall i :: 0 <= i < |bs| ==> InGrid(g, bs[i].desktopIndex) && bs[i].desktopIndex == bs[i].keyNumber - 1
  {
  }

  /** Keypad keys on a grid of nine or more desktops: each targets a desktop of the grid. */
  lemma NumPadKeysInLargeGrid(g: Grid, fKeys: bool)
    requires ValidGrid(g) && DesktopCount(g) >= 9
    ensures var bs := Bindings(g, true, fKeys);
      |bs| == 9 && forall i :: 0 <= i < |bs| ==> InGrid(g, bs[i].desktopIndex)
  {
    var bs := Bindings(g, true, fKeys);
    assert KeyLimit(g, true, fKeys) == 9;
    forall i | 0 <= i < |bs| ensures InGrid(g, bs[i].desktopIndex) {
      assert bs[i].desktopIndex == NumPadIndex(i + 1);
      NumPadKeyLands(i + 1);
    }
  }

  /** On a 2 x 2 grid with keypad keys the registration loop binds NumPad1 to
      desktop 6, which does not exist. */
  lemma NumPadOnSmallGridLeavesTheGrid()
    ensures var g := Grid(2, 2, false);
      var bs := Bindings(g, true, false);
      |bs| == 4 && bs[0] == Binding(NumPadKey, 1, 6) && !InGrid(g, bs[0].desktopIndex)
  {
    var bs := Bindings(Grid(2, 2, false), true, false);
    assert NumPadIndex(1) == 6;
    assert bs[0] == Binding(NumPadKey, 1, 6);
  }

  /** The bindings whose desktop lies on the grid, in order. */
  function KeepInGrid(g: Grid, bs: seq<Binding>): (r: seq<Binding>)
    ensures |r| <= |bs|
    ensures forall i :: 0 <= i < |r| ==> InGrid(g, r[i].desktopIndex)
    ensures forall i :: 0 <= i < |r| ==> r[i] in bs
    ensures forall i :: 0 <= i < |bs| && InGrid(g, bs[i].desktopIndex) ==> bs[i] in r
  {
    if bs == [] then []
    else
      var rest := KeepInGrid(g, bs[1..]);
      assert forall i :: 1 <= i < |bs| ==> bs[i] == bs[1..][i - 1];
      if InGrid(g, bs[0].desktopIndex) then [bs[0]] + rest else rest
  }

  /** `sub` is `s` with some of its elements dropped and the rest left in order. */
  ghost predicate InOrderWithin<T>(sub: seq<T>, s: seq<T>)
  {
    if sub == [] then true
    else if s == [] then false
    else (sub[0] == s[0] && InOrderWithin(sub[1..], s[1..])) || InOrderWithin(sub, s[1..])
  }

  /** Dropping the off-grid bindings keeps the others in their order, each as
      many times as it occurs, and keeps no off-grid binding at all. */
  lemma {:induction false} KeepInGridFilters(g: Grid, bs: seq<Binding>)
    ensures InOrderWithin(KeepInGrid(g, bs), bs)
    ensures forall b :: multiset(KeepInGrid(g, bs))[b] ==
                        (if InGrid(g, b.desktopIndex) then multiset(bs)[b] else 0)
  {
    if bs != [] {
      KeepInGridFilters(g, bs[1..]);
      assert bs == [bs[0]] + bs[1..];
      var r := KeepInGrid(g, bs);
      if InGrid(g, bs[0].desktopIndex) {
        assert r[1..] == KeepInGrid(g, bs[1..]);
      }
    }
  }

  /** The number hotkeys with the keypad restricted to desktops that exist: every
      one of the nine keypad keys is considered and a key is bound exactly when
      its desktop is on the grid. */
  function GridBindings(g: Grid, numPad: bool, fKeys: bool): seq<Binding>
  {
    if numPad then KeepInGrid(g, seq(9, i => Binding(NumPadKey, i + 1, NumPadIndex(i + 1))))
    else Bindings(g, numPad, fKeys)
  }

  /** Every corrected binding targets a desktop of the grid; a keypad key is bound
      exactly when its desktop exists; and with nine or more desktops nothing
      changes from the registration loop as written. */
  lemma GridBindingsInGrid(g: Grid, numPad: bool, fKeys: bool)
    requires ValidGrid(g)
    ensures var bs := GridBindings(g, numPad, fKeys);
      forall i :: 0 <= i < |bs| ==> InGrid(g, bs[i].desktopIndex)
    ensures numPad ==> forall k :: 1 <= k <= 9 ==>
      (Binding(NumPadKey, k, NumPadIndex(k)) in GridBindings(g, numPad, fKeys) <==> InGrid(g, NumPadIndex(k)))
    ensures numPad && DesktopCount(g) >= 9 ==> GridBindings(g, numPad, fKeys) == Bindings(g, numPad, fKeys)
  {
    if numPad {
      var all := seq(9, i => Binding(NumPadKey, i + 1, NumPadIndex(i + 1)));
      forall k | 1 <= k <= 9
        ensures Binding(NumPadKey, k, NumPadIndex(k)) in GridBindings(g, numPad, fKeys) <==> InGrid(g, NumPadIndex(k))
      {
        assert all[k - 1] == Binding(NumPadKey, k, NumPadIndex(k));
      }
      if DesktopCount(g) >= 9 {
        NumPadIsBijective();
        AllInGridKept(g, all);
        assert all == Bindings(g, numPad, fKeys);
      }
    } else {
      PlainKeysInGrid(g, fKeys);
    }
  }

  lemma {:induction false} AllInGridKept(g: Grid, bs: seq<Binding>)
    requires forall i :: 0 <= i < |bs| ==> InGrid(g, bs[i].desktopIndex)
    ensures KeepInGrid(g, bs) == bs
  {
    if bs != [] {
      AllInGridKept(g, bs[1..]);
    }
  }
}
