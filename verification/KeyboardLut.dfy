/** Keyboard layout files: the generator in scripts/keyboards/cldr_parser.py:546-619 and the
    reader in main_mcu/src/FILESYSTEM/custom_fs.c:351-442. A file is a sequence of little-endian
    halfwords: a description, 15 intervals of code points, and a symbol for each point in them. */
module KeyboardLut {
  import opened Wrappers

  const GAP: nat := 20
  const DESCRIPTION: nat := 20
  const INTERVALS: nat := 15
  const TABLE: nat := DESCRIPTION + 2 * INTERVALS
  const NONE: nat := 0xFFFF
  const KEY_RETURN: nat := 0x28
  const KEY_TAB: nat := 0x2B

  type Interval = (nat, nat)

  const CODE_POINTS: nat := 0x11_0000

  /** Code points and the keys to press for each. */
  type Keymap = d: map<nat, seq<byte>> | forall k :: k in d ==> k < CODE_POINTS

  // ---------------------------------------------------------------- the keys in order

  /** sorted() on the code points below n. */
  function KeysBelow(d: Keymap, n: nat): seq<nat> {
    if n == 0 then [] else KeysBelow(d, n - 1) + if n - 1 in d then [n - 1] else []
  }

  function SortedKeys(d: Keymap): seq<nat> {
    KeysBelow(d, CODE_POINTS)
  }

  lemma {:induction false} KeysAreSorted(d: Keymap, n: nat)
    ensures var ks := KeysBelow(d, n);
            && (forall i :: 0 <= i < |ks| ==> ks[i] < n && ks[i] in d)
            && (forall i, j :: 0 <= i < j < |ks| ==> ks[i] < ks[j])
            && (forall k :: 0 <= k < n && k in d ==> k in ks)
  {
    if n > 0 {
      KeysAreSorted(d, n - 1);
      assert n - 1 in d ==> KeysBelow(d, n)[|KeysBelow(d, n)| - 1] == n - 1;
      assert forall k :: k in KeysBelow(d, n - 1) ==> k in KeysBelow(d, n);
    }
  }

  // ---------------------------------------------------------------- the intervals

  /** What a further key makes of the intervals. */
  function With(g: seq<Interval>, key: nat): seq<Interval>
    requires |g| > 0
    ensures |With(g, key)| > 0
  {
    var last := g[|g| - 1];
    if key > last.1 + GAP then g + [(key, key)] else g[..|g| - 1] + [(last.0, key)]
  }

  /** A key more than 20 above the one before opens a new interval. */
  function Grouped(keys: seq<nat>): (g: seq<Interval>)
    requires keys != []
    ensures |g| > 0
  {
    var key := keys[|keys| - 1];
    if |keys| == 1 then [(key, key)]
    else
      With(Grouped(keys[..|keys| - 1]), key)
  }

  predicate Increasing(keys: seq<nat>) {
    forall i, j :: 0 <= i < j < |keys| ==> keys[i] < keys[j]
  }

  /** Sorted, disjoint, and more than 20 apart. */
  predicate Apart(g: seq<Interval>) {
    && (forall i :: 0 <= i < |g| ==> g[i].0 <= g[i].1)
    && (forall i, j :: 0 <= i < j < |g| ==> g[i].1 + GAP < g[j].0)
  }

  predicate Within(p: nat, i: Interval) { i.0 <= p <= i.1 }

  /** A key with no key among the 20 points before it. */
  ghost predicate Opens(keys: set<nat>, k: nat) {
    k in keys && forall x :: x in keys && x < k ==> x + GAP < k
  }

  /** A key with no key among the 20 points after it. */
  ghost predicate Closes(keys: set<nat>, k: nat) {
    k in keys && forall x :: x in keys && x > k ==> k + GAP < x
  }

  ghost predicate Covered(p: nat, g: seq<Interval>) {
    exists i :: 0 <= i < |g| && Within(p, g[i])
  }

  ghost predicate Groups(g: seq<Interval>, keys: set<nat>) {
    && |g| > 0 && Apart(g)
    && (forall i :: 0 <= i < |g| ==> Opens(keys, g[i].0) && Closes(keys, g[i].1))
    && (forall k :: k in keys ==> Covered(k, g) && k <= g[|g| - 1].1)
  }

  lemma KeyOpens(keys: set<nat>, key: nat, last: nat)
    requires (forall x :: x in keys ==> x <= last) && last < key
    ensures key > last + GAP ==> Opens(keys + {key}, key)
    ensures Closes(keys + {key}, key)
    ensures forall k: nat :: Opens(keys, k) ==> Opens(keys + {key}, k)
    ensures forall k: nat :: Closes(keys, k) && (k + GAP < last || key > last + GAP) ==> Closes(keys + {key}, k)
  {
  }

  lemma CoveredWith(g: seq<Interval>, key: nat, k: nat)
    requires |g| > 0 && (Covered(k, g) || k == key) && g[|g| - 1].0 <= g[|g| - 1].1 < key
    ensures Covered(k, With(g, key))
  {
    var h := With(g, key);
    if k == key {
      assert Within(k, h[|h| - 1]);
    } else {
      var i :| 0 <= i < |g| && Within(k, g[i]);
      assert Within(k, h[i]);
    }
  }

  lemma GroupsStep(g: seq<Interval>, keys: set<nat>, key: nat)
    requires Groups(g, keys) && g[|g| - 1].1 < key
    ensures Groups(With(g, key), keys + {key})
  {
    hide Opens, Closes, Covered;
    KeyOpens(keys, key, g[|g| - 1].1);
    forall k | k in keys + {key}
      ensures Covered(k, With(g, key))
    {
      CoveredWith(g, key, k);
    }
  }

  function SetOf(keys: seq<nat>): set<nat> {
    set k | k in keys
  }

  lemma GroupedNext(init: seq<nat>, key: nat)
    ensures Grouped(init + [key]) == if init == [] then [(key, key)] else With(Grouped(init), key)
  {
    assert (init + [key])[..|init|] == init;
  }

  lemma IncreasingInit(init: seq<nat>, key: nat)
    requires Increasing(init + [key])
    ensures Increasing(init) && (init != [] ==> init[|init| - 1] < key)
  {
    assert forall i :: 0 <= i < |init| ==> (init + [key])[i] == init[i];
    assert (init + [key])[|init|] == key;
  }

  lemma OneGroup(key: nat)
    ensures Groups([(key, key)], SetOf([]) + {key})
  {
    assert Within(key, [(key, key)][0]);
  }

  lemma LastOfWith(g: seq<Interval>, key: nat)
    requires |g| > 0
    ensures With(g, key)[|With(g, key)| - 1].1 == key
  {
  }

  lemma SetOfMore(init: seq<nat>, key: nat)
    ensures SetOf(init + [key]) == SetOf(init) + {key}
  {
  }

  /** The intervals are sorted, disjoint and more than 20 apart, each runs from a key with no
      key close before it to a key with no key close behind it, and together they hold every key. */
  lemma {:induction false} IntervalsGroup(keys: seq<nat>)
    requires keys != [] && Increasing(keys)
    ensures Groups(Grouped(keys), SetOf(keys)) && Grouped(keys)[|Grouped(keys)| - 1].1 == keys[|keys| - 1]
  {
    hide *;
    var key := keys[|keys| - 1];
    var init := keys[..|keys| - 1];
    assert keys == init + [key];
    GroupedNext(init, key);
    SetOfMore(init, key);
    if init == [] {
      OneGroup(key);
    } else {
      IncreasingInit(init, key);
      IntervalsGroup(init);
      GroupsStep(Grouped(init), SetOf(init), key);
      LastOfWith(Grouped(init), key);
    }
  }

  /** A point between two keys that are at most 20 apart, or a key. */
  ghost predicate Bridged(keys: set<nat>, p: nat) {
    exists a, b :: a in keys && b in keys && a <= p <= b <= a + GAP
  }

  lemma BridgedMore(keys: set<nat>, key: nat, p: nat)
    requires Bridged(keys, p)
    ensures Bridged(keys + {key}, p)
  {
    var a, b :| a in keys && b in keys && a <= p <= b <= a + GAP;
    assert a in keys + {key} && b in keys + {key};
  }

  lemma BridgedStep(g: seq<Interval>, keys: set<nat>, key: nat, p: nat)
    requires |g| > 0 && g[|g| - 1].1 in keys && Covered(p, With(g, key))
    requires Covered(p, g) ==> Bridged(keys, p)
    ensures Bridged(keys + {key}, p)
  {
    var h, last := With(g, key), g[|g| - 1];
    var i :| 0 <= i < |h| && Within(p, h[i]);
    if i < |g| && Within(p, g[i]) {
      BridgedMore(keys, key, p);
    } else {
      assert key in keys + {key} && last.1 in keys + {key};
      assert Within(p, (if key > last.1 + GAP then key else last.1, key));
    }
  }

  lemma OneIsBridged(keys: set<nat>, key: nat, p: nat)
    requires Covered(p, [(key, key)])
    ensures Bridged(keys + {key}, p)
  {
    assert key in keys + {key};
  }

  lemma LastIsIn(keys: seq<nat>)
    requires keys != []
    ensures keys[|keys| - 1] in SetOf(keys)
  {
  }

  /** No interval has a hole of more than 20 points. */
  lemma {:induction false} CoveredIsBridged(keys: seq<nat>, p: nat)
    requires keys != [] && Increasing(keys) && Covered(p, Grouped(keys))
    ensures Bridged(SetOf(keys), p)
  {
    var key := keys[|keys| - 1];
    var init := keys[..|keys| - 1];
    assert keys == init + [key];
    hide Grouped, With, Covered, Bridged, Increasing, SetOf, Groups;
    GroupedNext(init, key);
    SetOfMore(init, key);
    if init == [] {
      OneIsBridged(SetOf(init), key, p);
    } else {
      IncreasingInit(init, key);
      IntervalsGroup(init);
      if Covered(p, Grouped(init)) {
        CoveredIsBridged(init, p);
      }
      LastIsIn(init);
      BridgedStep(Grouped(init), SetOf(init), key, p);
    }
  }

  // ---------------------------------------------------------------- the table

  function Pair(high: nat, low: nat): nat { high * 256 + low }

  /** The symbol for a point: one key, one dead key, or two keys, the first in the high byte. */
  function Code(d: Keymap, dead: set<nat>, p: nat): nat
    requires p in d ==> d[p] != []
  {
    if p !in d then NONE
    else if |d[p]| == 1 then (if p in dead then Pair(0x80, d[p][0]) else Pair(0, d[p][0]))
    else Pair(d[p][0], d[p][1])
  }

  /** The two bytes of a symbol: of two keys the first is the high byte; a single key is the low
      byte, and the high byte says whether it is dead. */
  lemma CodeBytes(d: Keymap, dead: set<nat>, p: nat)
    requires p in d && d[p] != []
    ensures var c := Code(d, dead, p);
            && c / 256 == (if |d[p]| > 1 then d[p][0] else if p in dead then 128 else 0)
            && c % 256 == (if |d[p]| > 1 then d[p][1] else d[p][0])
  {
  }

  predicate Codable(d: Keymap) {
    forall k :: k in d ==> k < 0x1_0000 && d[k] != []
  }

  /** No point of a range has an empty entry. */
  predicate Spelled(d: Keymap, from: nat, n: nat) {
    forall p :: from <= p < from + n && p in d ==> d[p] != []
  }

  predicate Ordered(g: seq<Interval>) {
    forall i :: 0 <= i < |g| ==> g[i].0 <= g[i].1
  }

  predicate AllSpelled(d: Keymap, g: seq<Interval>)
    requires Ordered(g)
  {
    forall i :: 0 <= i < |g| ==> Spelled(d, g[i].0, g[i].1 + 1 - g[i].0)
  }

  lemma CodableIsSpelled(d: Keymap, g: seq<Interval>)
    requires Codable(d) && Ordered(g)
    ensures AllSpelled(d, g)
  {
  }

  function Symbols(d: Keymap, dead: set<nat>, from: nat, n: nat): (s: seq<nat>)
    requires Spelled(d, from, n)
    ensures |s| == n && forall i :: 0 <= i < n ==> s[i] == Code(d, dead, from + i)
  {
    seq<nat>(n, i requires 0 <= i < n => Code(d, dead, from + i))
  }

  function Size(g: seq<Interval>): nat
    requires Ordered(g)
  {
    if g == [] then 0 else Size(g[..|g| - 1]) + (g[|g| - 1].1 + 1 - g[|g| - 1].0)
  }

  function Table(d: Keymap, dead: set<nat>, g: seq<Interval>): (t: seq<nat>)
    requires Ordered(g) && AllSpelled(d, g)
    ensures |t| == Size(g)
  {
    if g == [] then []
    else
      var last := g[|g| - 1];
      Table(d, dead, g[..|g| - 1]) + Symbols(d, dead, last.0, last.1 + 1 - last.0)
  }

  /** The table is that of the intervals before the last, and the symbols of the last. */
  lemma TableSplit(d: Keymap, dead: set<nat>, g: seq<Interval>)
    requires g != [] && Ordered(g) && AllSpelled(d, g)
    ensures var init, last := g[..|g| - 1], g[|g| - 1];
            && Ordered(init) && AllSpelled(d, init) && Spelled(d, last.0, last.1 + 1 - last.0)
            && Size(g) == Size(init) + (last.1 + 1 - last.0)
            && Table(d, dead, g) == Table(d, dead, init) + Symbols(d, dead, last.0, last.1 + 1 - last.0)
  {
    hide Spelled, Symbols;
  }

  lemma OrderedPrefix(g: seq<Interval>, j: nat)
    requires Ordered(g) && j <= |g|
    ensures Ordered(g[..j])
  {
  }

  lemma {:induction false} TableAt(d: Keymap, dead: set<nat>, g: seq<Interval>, j: nat, p: nat)
    requires Ordered(g) && AllSpelled(d, g) && j < |g| && Within(p, g[j])
    ensures Ordered(g[..j]) && (p in d ==> d[p] != [])
    ensures var at := Size(g[..j]) + (p - g[j].0);
            at < Size(g) && Table(d, dead, g)[at] == Code(d, dead, p)
    decreases |g|
  {
    hide Code, Table, Size, AllSpelled, Ordered;
    var init, last := g[..|g| - 1], g[|g| - 1];
    OrderedPrefix(g, j);
    TableSplit(d, dead, g);
    if j < |g| - 1 {
      TableAt(d, dead, init, j, p);
      assert init[..j] == g[..j];
    } else {
      assert Spelled(d, last.0, last.1 + 1 - last.0);
    }
  }

  /** The intervals before one take fewer places than there are points below it. */
  lemma {:induction false} SizeBelow(g: seq<Interval>, j: nat)
    requires Apart(g) && j <= |g|
    ensures j < |g| ==> Size(g[..j]) <= g[j].0
    ensures j > 0 ==> Size(g[..j]) <= g[j - 1].1 + 1
  {
    if j > 0 {
      SizeBelow(g, j - 1);
      assert g[..j][..j - 1] == g[..j - 1];
    }
  }

  // ---------------------------------------------------------------- the file

  function Flat(g: seq<Interval>): (w: seq<nat>)
    ensures |w| == 2 * |g|
  {
    if g == [] then [] else Flat(g[..|g| - 1]) + [g[|g| - 1].0, g[|g| - 1].1]
  }

  lemma {:induction false} FlatAt(g: seq<Interval>, i: nat)
    requires i < |g|
    ensures Flat(g)[2 * i] == g[i].0 && Flat(g)[2 * i + 1] == g[i].1
  {
    if i < |g| - 1 {
      FlatAt(g[..|g| - 1], i);
    }
  }

  /** Only missing intervals are filled up; more than 15 move the table. */
  function IntervalItem(g: seq<Interval>): seq<nat> {
    Flat(g) + Copies(NONE, if |g| < INTERVALS then 2 * (INTERVALS - |g|) else 0)
  }

  predicate Writable(description: seq<nat>, d: Keymap) {
    && |description| < DESCRIPTION && (forall i :: 0 <= i < |description| ==> description[i] < 0x1_0000)
    && |d| > 0 && Codable(d)
  }

  lemma HasKeys(d: Keymap)
    requires |d| > 0
    ensures SortedKeys(d) != [] && Increasing(SortedKeys(d))
    ensures forall k :: k in d <==> k in SortedKeys(d)
  {
    KeysAreSorted(d, CODE_POINTS);
    var k :| k in d;
    assert k in SortedKeys(d);
  }

  function IntervalsOf(d: Keymap): (g: seq<Interval>)
    requires |d| > 0
    ensures Apart(g) && |g| > 0
  {
    HasKeys(d);
    IntervalsGroup(SortedKeys(d));
    assert Groups(Grouped(SortedKeys(d)), SetOf(SortedKeys(d)));
    Grouped(SortedKeys(d))
  }

  function File(description: seq<nat>, d: Keymap, dead: set<nat>): (f: seq<nat>)
    requires Writable(description, d)
    ensures |f| >= TABLE
  {
    var g := IntervalsOf(d);
    CodableIsSpelled(d, g);
    description + Copies(0, DESCRIPTION - |description|) + IntervalItem(g) + Table(d, dead, g)
  }

  /** The file begins with the description, and a zero is behind it. */
  lemma FileBegins(description: seq<nat>, d: Keymap, dead: set<nat>)
    requires Writable(description, d)
    ensures var f := File(description, d, dead);
            && description <= f && |description| < 20
            && forall i :: |description| <= i < 20 ==> f[i] == 0
  {
    hide IntervalsOf, Table, Flat;
  }

  lemma FlatNothing()
    ensures Flat([]) == []
  {
  }

  lemma FlatMore(g: seq<Interval>, i: Interval)
    ensures Flat(g + [i]) == Flat(g) + [i.0, i.1]
  {
    assert (g + [i])[..|g|] == g;
  }

  lemma WithLast(list: seq<Interval>, start: nat, last: nat, key: nat)
    ensures With(list + [(start, last)], key)
         == if key > last + GAP then list + [(start, last)] + [(key, key)] else list + [(start, key)]
  {
  }

  lemma IntervalsAre(d: Keymap)
    requires |d| > 0 && SortedKeys(d) != []
    ensures IntervalsOf(d) == Grouped(SortedKeys(d))
  {
  }

  lemma KeyIsCovered(d: Keymap, p: nat)
    requires |d| > 0 && p in d
    ensures Covered(p, IntervalsOf(d))
  {
    HasKeys(d);
    IntervalsGroup(SortedKeys(d));
    assert p in SetOf(SortedKeys(d));
  }

  lemma BoundsAreKeys(d: Keymap, i: nat)
    requires |d| > 0 && i < |IntervalsOf(d)|
    ensures IntervalsOf(d)[i].0 in d && IntervalsOf(d)[i].1 in d
  {
    HasKeys(d);
    IntervalsGroup(SortedKeys(d));
    assert Opens(SetOf(SortedKeys(d)), IntervalsOf(d)[i].0);
  }

  /** pack('H', …) raises on a larger number. */
  predicate Packs(w: nat) { w < 0x1_0000 }

  predicate KeysPack(d: Keymap) {
    forall k :: k in d ==> Packs(k)
  }

  /** The description, one halfword for each character, and filled up with zeros. */
  method WriteDescription(description: seq<nat>) returns (item: Option<seq<nat>>)
    ensures item == if |description| < DESCRIPTION && forall i :: 0 <= i < |description| ==> Packs(description[i])
                    then Some(description + Copies(0, DESCRIPTION - |description|)) else None
  {
    var written: seq<nat> := [];
    for i := 0 to |description|
      invariant written == description[..i] && forall k :: 0 <= k < i ==> Packs(description[k])
    {
      if !Packs(description[i]) {
        return None;
      }
      written := written + [description[i]];
    }
    if |description| > DESCRIPTION - 1 {
      return None;
    }
    for i := |description| to DESCRIPTION
      invariant written == description + Copies(0, i - |description|)
    {
      written := written + [0];
    }
    item := Some(written);
  }

  /** The intervals of a dictionary are those its keys alone determine. */
  lemma IntervalsDescribeKeys(d: Keymap)
    requires |d| > 0
    ensures Groups(IntervalsOf(d), d.Keys)
  {
    HasKeys(d);
    IntervalsGroup(SortedKeys(d));
    assert SetOf(SortedKeys(d)) == d.Keys;
  }

  lemma SameInterval(g: seq<Interval>, a: nat, b: nat, p: nat)
    requires Apart(g) && Covered(a, g) && Covered(b, g) && a <= p <= b <= a + GAP
    ensures Covered(p, g)
  {
    var i :| 0 <= i < |g| && Within(a, g[i]);
    var j :| 0 <= j < |g| && Within(b, g[j]);
    assert i == j;
    assert Within(p, g[i]);
  }

  /** The points covered are exactly the keys and what lies between two keys at most 20 apart. */
  lemma CoveredIff(d: Keymap, p: nat)
    requires |d| > 0
    ensures Covered(p, IntervalsOf(d)) <==> Bridged(d.Keys, p)
  {
    HasKeys(d);
    assert SetOf(SortedKeys(d)) == d.Keys;
    hide SortedKeys, SetOf, Grouped, Increasing;
    IntervalsAre(d);
    if Covered(p, IntervalsOf(d)) {
      CoveredIsBridged(SortedKeys(d), p);
    }
    if Bridged(d.Keys, p) {
      var a, b :| a in d.Keys && b in d.Keys && a <= p <= b <= a + GAP;
      IntervalsDescribeKeys(d);
      SameInterval(IntervalsOf(d), a, b, p);
    }
  }

  lemma LastIsLargest(d: Keymap, g: seq<Interval>)
    requires |d| > 0 && g == IntervalsOf(d)
    ensures forall k :: k in d ==> k <= g[|g| - 1].1
  {
    hide IntervalsOf, Opens, Closes, Covered, Apart;
    IntervalsDescribeKeys(d);
  }

  /** The loop over the sorted keys; an interval is written when the next one opens. It raises
      on the first bound that cannot be packed. */
  method BuildIntervals(d: Keymap) returns (result: Option<(seq<Interval>, seq<nat>)>)
    requires |d| > 0
    ensures result == if KeysPack(d) then Some((IntervalsOf(d), Flat(IntervalsOf(d)))) else None
  {
    hide SortedKeys, IntervalsOf, Grouped, With, Increasing, Flat;
    var keys := SortedKeys(d);
    HasKeys(d);
    var start: nat := keys[0];
    var last: nat := start;
    var list: seq<Interval>, item: seq<nat> := [], [];
    FlatNothing();
    var n := 0;
    while n < |keys|
      invariant 0 <= n <= |keys| && item == Flat(list) && start in d && last in d
      invariant n == 0 ==> list == [] && start == last == keys[0]
      invariant n > 0 ==> Grouped(keys[..n]) == list + [(start, last)]
    {
      var key := keys[n];
      assert keys[..n + 1] == keys[..n] + [key];
      GroupedNext(keys[..n], key);
      if n > 0 {
        WithLast(list, start, last, key);
      }
      if key > last + GAP {
        if !Packs(start) || !Packs(last) {
          return None;
        }
        FlatMore(list, (start, last));
        item := item + [start, last];
        list := list + [(start, last)];
        start, last := key, key;
      } else {
        last := key;
      }
      n := n + 1;
    }
    assert keys[..n] == keys;
    if !Packs(start) || !Packs(last) {
      return None;
    }
    FlatMore(list, (start, last));
    item := item + [start, last];
    list := list + [(start, last)];
    IntervalsAre(d);
    LastIsLargest(d, list);
    result := Some((list, item));
  }

  method PopulateInterval(d: Keymap, dead: set<nat>, interval: Interval) returns (result: Option<seq<nat>>)
    requires interval.0 <= interval.1
    ensures var n := interval.1 + 1 - interval.0;
            result == if Spelled(d, interval.0, n) then Some(Symbols(d, dead, interval.0, n)) else None
  {
    hide Pair;
    var lut: seq<nat> := [];
    for glyph := interval.0 to interval.1 + 1
      invariant Spelled(d, interval.0, glyph - interval.0) && lut == Symbols(d, dead, interval.0, glyph - interval.0)
    {
      if glyph !in d {
        lut := lut + [NONE];
      } else if |d[glyph]| == 1 {
        if glyph in dead {
          lut := lut + [Pair(0x80, d[glyph][0])];
        } else {
          lut := lut + [Pair(0, d[glyph][0])];
        }
      } else if |d[glyph]| < 2 {
        return None;
      } else {
        lut := lut + [Pair(d[glyph][0], d[glyph][1])];
      }
    }
    result := Some(lut);
  }

  /** The loops over the intervals and their points. They raise where a point's entry is empty,
      which has no second key. */
  method PopulateLut(d: Keymap, dead: set<nat>, list: seq<Interval>) returns (result: Option<seq<nat>>)
    requires Ordered(list)
    ensures result == if AllSpelled(d, list) then Some(Table(d, dead, list)) else None
  {
    var lut: seq<nat> := [];
    for n := 0 to |list|
      invariant AllSpelled(d, list[..n]) && lut == Table(d, dead, list[..n])
    {
      var more := PopulateInterval(d, dead, list[n]);
      if more.None? {
        return None;
      }
      lut := lut + more.value;
      assert list[..n + 1][..n] == list[..n];
    }
    assert list[..|list|] == list;
    result := Some(lut);
  }

  method PadIntervals(list: seq<Interval>, item: seq<nat>) returns (padded: seq<nat>)
    requires item == Flat(list)
    ensures padded == IntervalItem(list)
  {
    hide Flat;
    padded := item;
    var added := |list|;
    while added < INTERVALS
      invariant |list| <= added && (if |list| <= INTERVALS then added <= INTERVALS else added == |list|)
      invariant padded == Flat(list) + Copies(NONE, 2 * (added - |list|))
    {
      padded := padded + [NONE, NONE];
      added := added + 1;
    }
  }

  lemma WritableIff(description: seq<nat>, d: Keymap)
    ensures Writable(description, d)
       <==> && |description| < DESCRIPTION && (forall i :: 0 <= i < |description| ==> Packs(description[i]))
            && |d| > 0 && KeysPack(d) && AllSpelled(d, IntervalsOf(d))
  {
    if |d| > 0 && AllSpelled(d, IntervalsOf(d)) {
      forall k | k in d ensures d[k] != [] {
        KeyIsCovered(d, k);
        var i :| 0 <= i < |IntervalsOf(d)| && Within(k, IntervalsOf(d)[i]);
        assert Spelled(d, IntervalsOf(d)[i].0, IntervalsOf(d)[i].1 + 1 - IntervalsOf(d)[i].0);
      }
    }
  }

  /** generate_mini_ble_lut() from the finished dictionary on. It raises where it meets a
      description too long, an empty dictionary, a number that cannot be packed, or an empty
      entry, and succeeds if there is none. */
  method GenerateLut(description: seq<nat>, d: Keymap, dead: set<nat>) returns (file: Option<seq<nat>>)
    ensures file == if Writable(description, d) then Some(File(description, d, dead)) else None
  {
    hide IntervalItem, Table, Flat, IntervalsOf, AllSpelled, KeysPack;
    WritableIff(description, d);
    var head := WriteDescription(description);
    if head.None? || |d| == 0 {
      return None;
    }
    var built := BuildIntervals(d);
    if built.None? {
      return None;
    }
    var item := PadIntervals(built.value.0, built.value.1);
    var lut := PopulateLut(d, dead, built.value.0);
    if lut.None? {
      return None;
    }
    file := Some(head.value + item + lut.value);
  }

  // ---------------------------------------------------------------- the device's side

  /** The external flash from the layout's address on; behind its end it reads as erased. */
  function WordAt(layout: seq<nat>, at: nat): nat {
    if at < |layout| then layout[at] else NONE
  }

  /** The i-th interval description read. */
  function Described(layout: seq<nat>, i: nat): Interval
    requires TABLE <= |layout| && i < INTERVALS
  {
    (layout[DESCRIPTION + 2 * i], layout[DESCRIPTION + 2 * i + 1])
  }

  predicate Hit(i: Interval, p: nat) {
    i.0 != NONE && i.0 <= p && i.1 >= p
  }

  /** The 16-bit offset behind an interval. */
  function Behind(offset: nat, i: Interval): nat {
    (offset + i.1 - i.0 + 1) % 0x1_0000
  }

  /** Where the first interval that holds a point has its symbol, with a 16-bit offset. */
  function Scan(layout: seq<nat>, i: nat, offset: nat, p: nat): Option<nat>
    requires i <= INTERVALS && TABLE <= |layout|
    decreases INTERVALS - i
  {
    if i == INTERVALS then None
    else
      var d := Described(layout, i);
      if Hit(d, p) then Some(TABLE + offset + (p - d.0)) else Scan(layout, i + 1, Behind(offset, d), p)
  }

  function Fallback(p: nat): nat {
    if p == 0x09 then KEY_TAB else if p == 0x0A then KEY_RETURN else NONE
  }

  function Symbol(layout: seq<nat>, p: nat): nat
    requires TABLE <= |layout|
  {
    match Scan(layout, 0, 0, p)
    case None => Fallback(p)
    case Some(at) => WordAt(layout, at)
  }

  method FindSymbol(layout: seq<nat>, p: nat) returns (symbol: nat)
    requires TABLE <= |layout|
    ensures symbol == Symbol(layout, p)
  {
    hide Described, Behind, WordAt;
    var described := false;
    var start: nat, offset: nat, i: nat := 0, 0, 0;
    while i < INTERVALS
      invariant i <= INTERVALS && Scan(layout, 0, 0, p) == Scan(layout, i, offset, p)
      invariant !described
    {
      var d := Described(layout, i);
      if Hit(d, p) {
        start := d.0;
        described := true;
        break;
      }
      offset := Behind(offset, d);
      i := i + 1;
    }
    if described {
      symbol := WordAt(layout, TABLE + offset + (p - start));
    } else {
      symbol := Fallback(p);
    }
  }

  /** custom_fs_get_keyboard_symbols_for_unicode_string() on a string up to its terminator: a
      symbol for every point, and whether all points have one. */
  method GetKeyboardSymbols(layout: seq<nat>, text: seq<nat>) returns (symbols: seq<nat>, translated: bool)
    requires TABLE <= |layout| && forall i :: 0 <= i < |text| ==> text[i] != 0
    ensures |symbols| == |text| && forall i :: 0 <= i < |text| ==> symbols[i] == Symbol(layout, text[i])
    ensures translated <==> NONE !in symbols
  {
    symbols, translated := [], true;
    for i := 0 to |text|
      invariant |symbols| == i && forall k :: 0 <= k < i ==> symbols[k] == Symbol(layout, text[k])
      invariant translated <==> NONE !in symbols
    {
      var symbol := FindSymbol(layout, text[i]);
      if symbol == NONE {
        translated := false;
      }
      symbols := symbols + [symbol];
    }
  }

  // ---------------------------------------------------------------- both sides agree

  /** What the dictionary says of a point. */
  ghost function Expected(d: Keymap, dead: set<nat>, p: nat): nat
    requires |d| > 0 && Codable(d)
  {
    if p in d then Code(d, dead, p) else if Covered(p, IntervalsOf(d)) then NONE else Fallback(p)
  }

  /** The layout starts with these intervals, and no more. */
  ghost predicate Describes(layout: seq<nat>, g: seq<Interval>) {
    && TABLE <= |layout|
    && forall i {:trigger Described(layout, i)} :: 0 <= i < INTERVALS ==>
         if i < |g| then Described(layout, i) == g[i] else Described(layout, i).0 == NONE
  }

  lemma FileDescribes(description: seq<nat>, d: Keymap, dead: set<nat>, layout: seq<nat>)
    requires Writable(description, d) && File(description, d, dead) <= layout
    ensures var g := IntervalsOf(d); Describes(layout, g)
  {
    hide IntervalsOf, Table, Flat;
    var g := IntervalsOf(d);
    var f := File(description, d, dead);
    forall i | 0 <= i < INTERVALS
      ensures if i < |g| then Described(layout, i) == g[i] else Described(layout, i).0 == NONE
    {
      assert layout[DESCRIPTION + 2 * i] == f[DESCRIPTION + 2 * i]
          && layout[DESCRIPTION + 2 * i + 1] == f[DESCRIPTION + 2 * i + 1];
      if i < |g| {
        FlatAt(g, i);
        assert f[DESCRIPTION + 2 * i] == Flat(g)[2 * i] && f[DESCRIPTION + 2 * i + 1] == Flat(g)[2 * i + 1];
      }
    }
  }

  lemma FileHasTable(description: seq<nat>, d: Keymap, dead: set<nat>, layout: seq<nat>, k: nat)
    requires Writable(description, d) && File(description, d, dead) <= layout
    requires |IntervalsOf(d)| <= INTERVALS && k < Size(IntervalsOf(d))
    ensures WordAt(layout, TABLE + k) == Table(d, dead, IntervalsOf(d))[k]
  {
    hide IntervalsOf, Table, Flat;
    var f := File(description, d, dead);
    assert f[TABLE + k] == Table(d, dead, IntervalsOf(d))[k];
    assert layout[TABLE + k] == f[TABLE + k];
  }

  lemma SizeNext(g: seq<Interval>, i: nat)
    requires Apart(g) && i + 1 < |g| && g[i + 1].0 < 0x1_0000
    ensures Size(g[..i + 1]) == Behind(Size(g[..i]), g[i])
  {
    assert g[..i + 1][..i] == g[..i];
    SizeBelow(g, i + 1);
  }

  lemma {:induction false} ScanHits(layout: seq<nat>, g: seq<Interval>, i: nat, j: nat, p: nat)
    requires i <= j < |g| && j < INTERVALS && Describes(layout, g) && Apart(g) && p < 0x1_0000
    requires Within(p, g[j]) && g[j].0 != NONE
    ensures Scan(layout, i, Size(g[..i]), p) == Some(TABLE + Size(g[..j]) + (p - g[j].0))
    decreases j - i
  {
    assert Described(layout, i) == g[i];
    if i < j {
      hide Behind, Size;
      assert g[i].1 + GAP < g[j].0;
      assert i + 1 == j || g[i + 1].1 + GAP < g[j].0;
      SizeNext(g, i);
      ScanHits(layout, g, i + 1, j, p);
    }
  }

  lemma {:induction false} ScanMisses(layout: seq<nat>, i: nat, offset: nat, p: nat)
    requires i <= INTERVALS && TABLE <= |layout|
    requires forall k :: i <= k < INTERVALS ==> !Hit(Described(layout, k), p)
    ensures Scan(layout, i, offset, p) == None
    decreases INTERVALS - i
  {
    if i < INTERVALS {
      ScanMisses(layout, i + 1, Behind(offset, Described(layout, i)), p);
    }
  }

  /** A layout the device can use: at most 15 intervals, none of which starts at 0xFFFF. */
  predicate Usable(d: Keymap)
    requires |d| > 0
  {
    |IntervalsOf(d)| <= INTERVALS && forall i :: 0 <= i < |IntervalsOf(d)| ==> IntervalsOf(d)[i].0 != NONE
  }

  lemma UsableAt(d: Keymap, j: nat)
    requires |d| > 0 && Usable(d) && j < |IntervalsOf(d)|
    ensures |IntervalsOf(d)| <= INTERVALS && IntervalsOf(d)[j].0 != NONE
  {
  }

  lemma SymbolAt(layout: seq<nat>, p: nat, at: nat)
    requires TABLE <= |layout| && Scan(layout, 0, 0, p) == Some(at)
    ensures Symbol(layout, p) == WordAt(layout, at)
  {
  }

  lemma ScanStart(layout: seq<nat>, g: seq<Interval>, j: nat, p: nat)
    requires j < |g| && j < INTERVALS && Describes(layout, g) && Apart(g) && p < 0x1_0000
    requires Within(p, g[j]) && g[j].0 != NONE
    ensures Scan(layout, 0, 0, p) == Some(TABLE + Size(g[..j]) + (p - g[j].0))
  {
    assert Size(g[..0]) == 0;
    ScanHits(layout, g, 0, j, p);
  }

  lemma SymbolOfCovered(description: seq<nat>, d: Keymap, dead: set<nat>, layout: seq<nat>, p: nat, j: nat)
    requires Writable(description, d) && File(description, d, dead) <= layout && Usable(d) && p < 0x1_0000
    requires j < |IntervalsOf(d)| && Within(p, IntervalsOf(d)[j])
    ensures Symbol(layout, p) == Code(d, dead, p)
  {
    hide File, IntervalsOf, Table, Code, Symbol, Scan, Describes, Usable, WordAt;
    var g := IntervalsOf(d);
    UsableAt(d, j);
    FileDescribes(description, d, dead, layout);
    ScanStart(layout, g, j, p);
    TableAt(d, dead, g, j, p);
    var at := Size(g[..j]) + (p - g[j].0);
    FileHasTable(description, d, dead, layout, at);
    SymbolAt(layout, p, TABLE + at);
  }

  lemma SymbolOfUncovered(description: seq<nat>, d: Keymap, dead: set<nat>, layout: seq<nat>, p: nat)
    requires Writable(description, d) && File(description, d, dead) <= layout && !Covered(p, IntervalsOf(d))
    ensures Symbol(layout, p) == Fallback(p)
  {
    hide File, IntervalsOf;
    var g := IntervalsOf(d);
    FileDescribes(description, d, dead, layout);
    forall k | 0 <= k < INTERVALS
      ensures !Hit(Described(layout, k), p)
    {
      assert k < |g| ==> !Within(p, g[k]);
    }
    ScanMisses(layout, 0, 0, p);
  }

  lemma ExpectedCases(d: Keymap, dead: set<nat>, p: nat)
    requires |d| > 0 && Codable(d)
    ensures Expected(d, dead, p) == if Covered(p, IntervalsOf(d)) then Code(d, dead, p) else Fallback(p)
  {
    hide IntervalsOf, Covered;
    if p in d {
      KeyIsCovered(d, p);
    }
  }

  lemma SymbolIsExpected(description: seq<nat>, d: Keymap, dead: set<nat>, layout: seq<nat>, p: nat)
    requires Writable(description, d) && File(description, d, dead) <= layout && Usable(d) && p < 0x1_0000
    ensures Symbol(layout, p) == Expected(d, dead, p)
  {
    hide File, IntervalsOf, Code, Usable, Expected, Symbol;
    var g := IntervalsOf(d);
    ExpectedCases(d, dead, p);
    if Covered(p, g) {
      var j :| 0 <= j < |g| && Within(p, g[j]);
      SymbolOfCovered(description, d, dead, layout, p, j);
    } else {
      SymbolOfUncovered(description, d, dead, layout, p);
    }
  }

  lemma MissedSymbol(layout: seq<nat>, p: nat)
    requires TABLE <= |layout| && Scan(layout, 0, 0, p) == None && p > GAP
    ensures Symbol(layout, p) == NONE
  {
  }

  lemma StartNotHit(layout: seq<nat>, g: seq<Interval>, n: nat)
    requires Describes(layout, g) && Apart(g) && n < |g| && (n == INTERVALS || g[n].0 == NONE)
    ensures g[n].0 > GAP && forall k :: 0 <= k < INTERVALS ==> !Hit(Described(layout, k), g[n].0)
  {
    forall k | 0 <= k < INTERVALS
      ensures !Hit(Described(layout, k), g[n].0)
    {
      assert k < |g| && k < n ==> g[k].1 + GAP < g[n].0;
      assert k < |g| && n < k ==> g[n].1 + GAP < g[k].0;
    }
    if n == INTERVALS {
      assert g[0].1 + GAP < g[n].0;
    }
  }

  /** A sixteenth interval, or one that starts at 0xFFFF, is not found. */
  lemma StartIsMissed(description: seq<nat>, d: Keymap, dead: set<nat>, layout: seq<nat>, n: nat)
    requires Writable(description, d) && File(description, d, dead) <= layout
    requires n < |IntervalsOf(d)| && (n == INTERVALS || IntervalsOf(d)[n].0 == NONE)
    ensures Symbol(layout, IntervalsOf(d)[n].0) == NONE
  {
    hide File, IntervalsOf, Table, Code, Symbol, Scan, Describes;
    FileDescribes(description, d, dead, layout);
    StartNotHit(layout, IntervalsOf(d), n);
    ScanMisses(layout, 0, 0, IntervalsOf(d)[n].0);
    MissedSymbol(layout, IntervalsOf(d)[n].0);
  }

  ghost predicate Agrees(d: Keymap, dead: set<nat>, layout: seq<nat>)
    requires |d| > 0 && Codable(d) && TABLE <= |layout|
  {
    forall p :: 0 <= p < 0x1_0000 ==> Symbol(layout, p) == Expected(d, dead, p)
  }

  ghost predicate StartsHaveSymbols(d: Keymap, dead: set<nat>)
    requires |d| > 0 && Codable(d)
  {
    forall i :: 0 <= i < |IntervalsOf(d)| ==> IntervalsOf(d)[i].0 in d && Code(d, dead, IntervalsOf(d)[i].0) != NONE
  }

  lemma ExpectsCode(d: Keymap, dead: set<nat>, p: nat)
    requires |d| > 0 && Codable(d) && p in d
    ensures Expected(d, dead, p) == Code(d, dead, p) && p < 0x1_0000
  {
  }

  lemma MissedStart(description: seq<nat>, d: Keymap, dead: set<nat>, layout: seq<nat>) returns (n: nat, p: nat)
    requires Writable(description, d) && File(description, d, dead) <= layout && !Usable(d)
    ensures n < |IntervalsOf(d)| && p == IntervalsOf(d)[n].0
    ensures p in d && p < 0x1_0000 && Symbol(layout, p) == NONE && Expected(d, dead, p) == Code(d, dead, p)
  {
    hide IntervalsOf, Symbol, Expected, Code, File;
    var g := IntervalsOf(d);
    n := INTERVALS;
    if |g| <= INTERVALS {
      n :| 0 <= n < |g| && g[n].0 == NONE;
    }
    StartIsMissed(description, d, dead, layout, n);
    p := g[n].0;
    BoundsAreKeys(d, n);
    ExpectsCode(d, dead, p);
  }

  /** The device finds for every code point what the dictionary says if the layout is usable,
      and only then, provided that no interval starts at a key whose symbol is 0xFFFF. */
  lemma AgreesIffUsable(description: seq<nat>, d: Keymap, dead: set<nat>, layout: seq<nat>)
    requires Writable(description, d) && File(description, d, dead) <= layout
    ensures Usable(d) ==> Agrees(d, dead, layout)
    ensures StartsHaveSymbols(d, dead) && Agrees(d, dead, layout) ==> Usable(d)
  {
    hide File, IntervalsOf, Table, Code, Symbol, Expected;
    if Usable(d) {
      forall p: nat | p < 0x1_0000
        ensures Symbol(layout, p) == Expected(d, dead, p)
      {
        SymbolIsExpected(description, d, dead, layout, p);
      }
    } else {
      var n, p := MissedStart(description, d, dead, layout);
      if StartsHaveSymbols(d, dead) {
        assert IntervalsOf(d)[n].0 in d && Code(d, dead, IntervalsOf(d)[n].0) != NONE;
        assert Symbol(layout, p) != Expected(d, dead, p);
      }
    }
  }

  /** Points that no interval covers have no symbol, but for tab and return, which have the codes
      of their keys on every layout. */
  lemma UncoveredSymbols(description: seq<nat>, d: Keymap, dead: set<nat>, layout: seq<nat>, p: nat)
    requires Writable(description, d) && File(description, d, dead) <= layout && Usable(d) && p < 0x1_0000
    requires !Bridged(d.Keys, p)
    ensures Symbol(layout, p) == if p == 9 then 0x2B else if p == 10 then 0x28 else 0xFFFF
  {
    hide File, IntervalsOf, Code, Usable, Symbol, Bridged, Expected, Covered;
    SymbolIsExpected(description, d, dead, layout, p);
    ExpectedCases(d, dead, p);
    CoveredIff(d, p);
  }

  // ---------------------------------------------------------------- reading a symbol

  datatype Press = OneKey(key: nat) | DeadKey(key: nat) | TwoKeys(first: nat, second: nat)

  function Meaning(d: Keymap, dead: set<nat>, p: nat): Press
    requires p in d && 1 <= |d[p]| <= 2
  {
    if |d[p]| == 2 then TwoKeys(d[p][0], d[p][1]) else if p in dead then DeadKey(d[p][0]) else OneKey(d[p][0])
  }

  function Read(symbol: nat): Press {
    var high, low := symbol / 256, symbol % 256;
    if high == 0 then OneKey(low) else if high == 0x80 then DeadKey(low) else TwoKeys(high, low)
  }

  /** A key code of the ISO table, 1 to 0x39 in the low six bits under two modifier bits. */
  predicate IsoKey(b: byte) { 1 <= b % 64 <= 0x39 }

  /** One-key, dead-key and two-key symbols are told apart exactly when no first key of two is
      code 0 without modifiers or with shift alone. */
  lemma ReadsBackIff(d: Keymap, dead: set<nat>, p: nat)
    requires Codable(d) && p in d && |d[p]| <= 2
    ensures Read(Code(d, dead, p)) == Meaning(d, dead, p) <==> |d[p]| == 1 || d[p][0] !in {0, 0x80}
  {
  }

  /** In particular this holds for the key codes of the ISO table, which also never give 0xFFFF. */
  lemma IsoKeysReadBack(d: Keymap, dead: set<nat>, p: nat)
    requires Codable(d) && p in d && |d[p]| <= 2 && forall i :: 0 <= i < |d[p]| ==> IsoKey(d[p][i])
    ensures Read(Code(d, dead, p)) == Meaning(d, dead, p) && Code(d, dead, p) != NONE
  {
    ReadsBackIff(d, dead, p);
  }
}
