/**
 * The weekly check-in state of the training page (script.js): one persisted flag per
 * check-in box, keyed `checkin_<table>_<item>`, a guard that fires on Sunday during the
 * 22:00 hour unless the reset already ran on today's date, and the reset itself, which
 * sweeps every check-in key out of the store and records today's date as the marker.
 *
 * Weekday and hour are local time (`getDay`, `getHours`) while the date string is the
 * UTC date of `toISOString()`; the model takes the three as independent inputs.
 */
module Checkins {
  import opened Wrappers
  import opened Text
  import opened WebStorage

  /** Key of the last-reset marker. */
  const LastResetKey: string := "last_checkin_reset_date"

  /** Every check-in key begins with this. */
  const CheckinPrefix: string := "checkin_"

  /** `Date.prototype.getDay()`: 0 is Sunday. */
  type Weekday = d: int | 0 <= d < 7

  /** `Date.prototype.getHours()`. */
  type Hour = h: int | 0 <= h < 24

  /** `key.startsWith("checkin_")`: the key is the prefix followed by some rest. */
  predicate IsCheckinKey(key: string): (b: bool)
    ensures b <==> |CheckinPrefix| <= |key| && key == CheckinPrefix + key[|CheckinPrefix|..]
  {
    StartsWith(key, CheckinPrefix)
  }

  lemma MarkerIsNotCheckinKey()
    ensures !IsCheckinKey(LastResetKey)
  {
    assert LastResetKey[..|CheckinPrefix|] != CheckinPrefix by {
      assert LastResetKey[0] != CheckinPrefix[0];
    }
  }

  // ---------------------------------------------------------------------------
  // Key and value encoding of one check-in box
  // ---------------------------------------------------------------------------

  /** The key of item `item` of table `table`: the template `checkin_${t}_${i}`. */
  function CheckinKey(table: nat, item: nat): (key: string)
    ensures IsCheckinKey(key)
  {
    var key := CheckinPrefix + Decimal(table) + "_" + Decimal(item);
    assert key == CheckinPrefix + (Decimal(table) + "_" + Decimal(item));
    StartsWithConcat(CheckinPrefix, Decimal(table) + "_" + Decimal(item));
    key
  }

  /** Position of the first `c` in `s`, or `|s|` when there is none. */
  function IndexOf(s: string, c: char): (p: nat)
    ensures p <= |s|
    ensures forall j :: 0 <= j < p ==> s[j] != c
    ensures p < |s| ==> s[p] == c
  {
    if s == [] then 0 else if s[0] == c then 0 else 1 + IndexOf(s[1..], c)
  }

  predicate AllDigits(s: string) {
    forall j :: 0 <= j < |s| ==> IsDigit(s[j])
  }

  /** Reads a check-in key back into its (table, item) pair; `None` for any other key. */
  function ParseCheckinKey(key: string): (r: Option<(nat, nat)>)
    ensures r.Some? ==> IsCheckinKey(key)
  {
    if !IsCheckinKey(key) then None
    else
      var rest := key[|CheckinPrefix|..];
      var p := IndexOf(rest, '_');
      if p == |rest| then None
      else
        var a, b := rest[..p], rest[p + 1..];
        if a != [] && b != [] && AllDigits(a) && AllDigits(b)
        then Some((DecimalValue(a), DecimalValue(b)))
        else None
  }

  /** Every key the page builds reads back as the pair it was built from. */
  lemma CheckinKeyRoundTrip(table: nat, item: nat)
    ensures ParseCheckinKey(CheckinKey(table, item)) == Some((table, item))
  {
    var a, b := Decimal(table), Decimal(item);
    var key := CheckinKey(table, item);
    var rest := key[|CheckinPrefix|..];
    assert rest == a + "_" + b;
    var p := IndexOf(rest, '_');
    assert p == |a| by {
      assert rest[|a|] == '_';
      assert forall j :: 0 <= j < |a| ==> rest[j] == a[j] && IsDigit(a[j]);
    }
    assert rest[..p] == a;
    assert rest[p + 1..] == b;
    DecimalRoundTrip(table);
    DecimalRoundTrip(item);
  }

  /** Distinct (table, item) pairs never share a key, so boxes never overwrite each other. */
  lemma CheckinKeyInjective(t1: nat, i1: nat, t2: nat, i2: nat)
    requires (t1, i1) != (t2, i2)
    ensures CheckinKey(t1, i1) != CheckinKey(t2, i2)
  {
    CheckinKeyRoundTrip(t1, i1);
    CheckinKeyRoundTrip(t2, i2);
  }

  /** `localStorage.setItem(key, this.checked)` stores the boolean as its string form. */
  function EncodeChecked(checked: bool): (stored: string)
    ensures DecodeChecked(Some(stored)) == checked
  {
    if checked then "true" else "false"
  }

  /** `localStorage.getItem(key) === "true"`: an absent key or any other text reads unchecked. */
  function DecodeChecked(stored: Option<string>): (checked: bool)
    ensures stored.None? ==> !checked
    ensures checked ==> stored == Some("true")
  {
    stored == Some("true")
  }

  /** Saving a box and reading it back gives the saved state. */
  lemma DecodeEncode(checked: bool)
    ensures DecodeChecked(Some(EncodeChecked(checked))) == checked
  {
  }

  /** The state a box has after a page load, given the store. */
  function RestoredState(s: seq<Entry>, table: nat, item: nat): (checked: bool)
    ensures checked ==> Lookup(s, CheckinKey(table, item)) == Some("true")
  {
    DecodeChecked(Lookup(s, CheckinKey(table, item)))
  }

  /**
   * After the change handler saves a box, a reload shows that box in the saved state,
   * and every other box in the state it had before.
   */
  lemma SaveThenRestore(s: seq<Entry>, table: nat, item: nat, checked: bool, t: nat, i: nat)
    ensures RestoredState(Put(s, CheckinKey(table, item), EncodeChecked(checked)), table, item) == checked
    ensures (t, i) != (table, item) ==>
      RestoredState(Put(s, CheckinKey(table, item), EncodeChecked(checked)), t, i) == RestoredState(s, t, i)
  {
    LookupPut(s, CheckinKey(table, item), EncodeChecked(checked), CheckinKey(t, i));
    if (t, i) != (table, item) {
      CheckinKeyInjective(table, item, t, i);
    }
  }

  // ---------------------------------------------------------------------------
  // The reset guard and the reset
  // ---------------------------------------------------------------------------

  /** `checkAndReset`'s condition; an absent marker (`null`) differs from every date. */
  predicate ShouldReset(day: Weekday, hour: Hour, lastReset: Option<string>, today: string)
    ensures ShouldReset(day, hour, lastReset, today) ==> day == 0 && hour == 22
    ensures lastReset == Some(today) ==> !ShouldReset(day, hour, lastReset, today)
  {
    day == 0 && hour == 22 && lastReset != Some(today)
  }

  /** The guard fires only on Sunday in the 22:00 hour, and never once the marker is today. */
  lemma GuardWindow(day: Weekday, hour: Hour, lastReset: Option<string>, today: string)
    ensures ShouldReset(day, hour, lastReset, today) ==> day == 0 && hour == 22
    ensures lastReset == Some(today) ==> !ShouldReset(day, hour, lastReset, today)
    ensures day == 0 && hour == 22 && lastReset.None? ==> ShouldReset(day, hour, lastReset, today)
  {
  }

  /** The store with every check-in entry removed; the other entries keep their order. */
  function Swept(s: seq<Entry>): (r: seq<Entry>)
    ensures |r| <= |s|
    ensures forall j :: 0 <= j < |r| ==> !IsCheckinKey(r[j].key)
  {
    if s == [] then []
    else if IsCheckinKey(s[0].key) then Swept(s[1..])
    else [s[0]] + Swept(s[1..])
  }

  /** The store as `resetCheckins` leaves it: swept, then the marker set to `today`. */
  function AfterReset(s: seq<Entry>, today: string): (r: seq<Entry>)
    ensures Lookup(r, LastResetKey) == Some(today)
  {
    LookupPut(Swept(s), LastResetKey, today, LastResetKey);
    Put(Swept(s), LastResetKey, today)
  }

  /** Sweeping drops exactly the check-in keys: every other key keeps its value. */
  lemma {:induction false} SweptLookup(s: seq<Entry>, key: string)
    ensures Lookup(Swept(s), key) == if IsCheckinKey(key) then None else Lookup(s, key)
  {
    if s != [] {
      SweptLookup(s[1..], key);
    }
  }

  /** Sweeping a store without check-in keys changes nothing. */
  lemma {:induction false} SweptNoCheckins(s: seq<Entry>)
    requires forall j :: 0 <= j < |s| ==> !IsCheckinKey(s[j].key)
    ensures Swept(s) == s
  {
    if s != [] {
      SweptNoCheckins(s[1..]);
    }
  }

  /** Sweeping twice is sweeping once. */
  lemma {:induction false} SweptIdempotent(s: seq<Entry>)
    ensures Swept(Swept(s)) == Swept(s)
  {
    if s != [] {
      SweptIdempotent(s[1..]);
    }
  }

  /** Writing a key that is not a check-in key commutes with the sweep. */
  lemma {:induction false} SweptPut(s: seq<Entry>, key: string, value: string)
    requires !IsCheckinKey(key)
    ensures Swept(Put(s, key, value)) == Put(Swept(s), key, value)
  {
    if s != [] && s[0].key != key {
      SweptPut(s[1..], key, value);
      if IsCheckinKey(s[0].key) {
        SweptLookup(s[1..], key);
        assert Lookup(Swept(s), key) == Lookup(Swept(s[1..]), key);
      }
    }
  }

  /** After a reset no check-in key remains, so every box reloads unchecked. */
  lemma ResetClearsCheckins(s: seq<Entry>, today: string, key: string)
    requires IsCheckinKey(key)
    ensures Lookup(AfterReset(s, today), key).None?
  {
    MarkerIsNotCheckinKey();
    LookupPut(Swept(s), LastResetKey, today, key);
    SweptLookup(s, key);
  }

  lemma ResetUnchecksEveryBox(s: seq<Entry>, today: string, table: nat, item: nat)
    ensures !RestoredState(AfterReset(s, today), table, item)
  {
    ResetClearsCheckins(s, today, CheckinKey(table, item));
  }

  /** A reset leaves every other key, and its value, as it was, apart from the marker. */
  lemma ResetKeepsOthers(s: seq<Entry>, today: string, key: string)
    requires !IsCheckinKey(key) && key != LastResetKey
    ensures Lookup(AfterReset(s, today), key) == Lookup(s, key)
  {
    LookupPut(Swept(s), LastResetKey, today, key);
    SweptLookup(s, key);
  }

  /** After a reset the marker holds today's date, so the guard no longer fires today. */
  lemma ResetDisarmsGuard(s: seq<Entry>, today: string, day: Weekday, hour: Hour)
    ensures Lookup(AfterReset(s, today), LastResetKey) == Some(today)
    ensures !ShouldReset(day, hour, Lookup(AfterReset(s, today), LastResetKey), today)
  {
    LookupPut(Swept(s), LastResetKey, today, LastResetKey);
  }

  /** Resetting twice on the same date leaves the store as resetting once. */
  lemma ResetIdempotent(s: seq<Entry>, today: string)
    ensures AfterReset(AfterReset(s, today), today) == AfterReset(s, today)
  {
    MarkerIsNotCheckinKey();
    SweptPut(Swept(s), LastResetKey, today);
    SweptIdempotent(s);
    PutPut(Swept(s), LastResetKey, today, today);
  }

  /** A reset keeps the store's keys distinct. */
  lemma {:induction false} SweptDistinct(s: seq<Entry>)
    requires DistinctKeys(s)
    ensures DistinctKeys(Swept(s))
  {
    if s != [] {
      SweptDistinct(s[1..]);
      if !IsCheckinKey(s[0].key) {
        var r := Swept(s);
        forall j | 0 < j < |r| ensures r[j].key != s[0].key {
          SweptLookup(s[1..], s[0].key);
          assert r[j] == Swept(s[1..])[j - 1];
        }
      }
    }
  }

  // ---------------------------------------------------------------------------
  // Repeated page loads
  // ---------------------------------------------------------------------------

  /** What one page load sees of the clock. */
  datatype Clock = Clock(day: Weekday, hour: Hour, today: string)

  function Fires(s: seq<Entry>, c: Clock): (fires: bool)
    ensures fires ==> c.day == 0 && c.hour == 22 && Lookup(s, LastResetKey) != Some(c.today)
  {
    ShouldReset(c.day, c.hour, Lookup(s, LastResetKey), c.today)
  }

  /** The store after one page load runs `checkAndReset`. */
  function AfterLoad(s: seq<Entry>, c: Clock): (r: seq<Entry>)
    ensures Fires(s, c) ==> Lookup(r, LastResetKey) == Some(c.today)
    ensures !Fires(s, c) ==> r == s
  {
    if Fires(s, c) then AfterReset(s, c.today) else s
  }

  /** How many of the page loads `loads`, run in turn from store `s`, perform the reset. */
  function ResetCount(s: seq<Entry>, loads: seq<Clock>): (n: nat)
    ensures n <= |loads|
    decreases |loads|
  {
    if loads == [] then 0
    else (if Fires(s, loads[0]) then 1 else 0) + ResetCount(AfterLoad(s, loads[0]), loads[1..])
  }

  /** The store after the page loads `loads`, run in turn from store `s`. */
  function AfterLoads(s: seq<Entry>, loads: seq<Clock>): (r: seq<Entry>)
    ensures ResetCount(s, loads) == 0 ==> r == s
    decreases |loads|
  {
    if loads == [] then s else AfterLoads(AfterLoad(s, loads[0]), loads[1..])
  }

  /** Once the marker holds the date, no load on that date resets or changes the store. */
  lemma {:induction false} NoResetOnceMarked(s: seq<Entry>, loads: seq<Clock>, today: string)
    requires Lookup(s, LastResetKey) == Some(today)
    requires forall j :: 0 <= j < |loads| ==> loads[j].today == today
    ensures ResetCount(s, loads) == 0
    ensures AfterLoads(s, loads) == s
    decreases |loads|
  {
    if loads != [] {
      NoResetOnceMarked(s, loads[1..], today);
    }
  }

  /**
   * However many times the page is loaded on one date, the reset runs at most once;
   * and it runs exactly once when the marker is not yet that date and some load falls
   * in the Sunday 22:00 window.
   */
  lemma {:induction false} ResetOncePerDate(s: seq<Entry>, loads: seq<Clock>, today: string)
    requires forall j :: 0 <= j < |loads| ==> loads[j].today == today
    ensures ResetCount(s, loads) <= 1
    ensures Lookup(s, LastResetKey) != Some(today) &&
            (exists j :: 0 <= j < |loads| && loads[j].day == 0 && loads[j].hour == 22)
            ==> ResetCount(s, loads) == 1
    decreases |loads|
  {
    if loads != [] {
      if Fires(s, loads[0]) {
        ResetDisarmsGuard(s, today, 0, 22);
        NoResetOnceMarked(AfterLoad(s, loads[0]), loads[1..], today);
      } else {
        ResetOncePerDate(s, loads[1..], today);
        if Lookup(s, LastResetKey) != Some(today) &&
           (exists j :: 0 <= j < |loads| && loads[j].day == 0 && loads[j].hour == 22) {
          var j :| 0 <= j < |loads| && loads[j].day == 0 && loads[j].hour == 22;
          assert j != 0;
          assert loads[1..][j - 1] == loads[j];
        }
      }
    }
  }

  // ---------------------------------------------------------------------------
  // The page's operations on the live store and check-in boxes
  // ---------------------------------------------------------------------------

  /** Sets every check-in box on the page to unchecked (`checkbox.checked = false`). */
  method UncheckAll(boxes: array<bool>)
    modifies boxes
    ensures forall j :: 0 <= j < boxes.Length ==> !boxes[j]
  {
    for j := 0 to boxes.Length
      invariant forall k :: 0 <= k < j ==> !boxes[k]
    {
      boxes[j] := false;
    }
  }

  /**
   * `resetCheckins`: unchecks the boxes, walks the store's keys from the last position
   * down to the first removing each check-in key, then writes today's date as the marker.
   * Walking downwards means a removal only shifts positions already visited.
   */
  method ResetCheckins(store: Store, boxes: array<bool>, today: string)
    requires store.Valid()
    modifies store, boxes
    ensures store.Valid()
    ensures store.entries == AfterReset(old(store.entries), today)
    ensures forall j :: 0 <= j < boxes.Length ==> !boxes[j]
  {
    UncheckAll(boxes);
    SweepCheckins(store);
    store.SetItem(LastResetKey, today);
  }

  /** The loop of `resetCheckins`: from the last position down to 0, remove check-in keys. */
  method SweepCheckins(store: Store)
    requires store.Valid()
    modifies store
    ensures store.Valid()
    ensures store.entries == Swept(old(store.entries))
  {
    ghost var s0 := store.entries;
    var i := store.Length() - 1;
    WalkStart(s0);
    while i >= 0
      invariant -1 <= i < |s0|
      invariant store.Valid()
      invariant store.entries == Walked(s0, i)
      decreases i
    {
      var key := store.Key(i);
      WalkStep(s0, i);
      if StartsWith(key.value, CheckinPrefix) {
        store.RemoveItem(key.value);
      }
      i := i - 1;
    }
    WalkEnd(s0);
  }

  /**
   * The store while the walk is at position `i`: positions above `i` have been visited
   * and their check-in keys removed, positions up to `i` are untouched.
   */
  ghost function Walked(s: seq<Entry>, i: int): seq<Entry>
    requires -1 <= i < |s|
  {
    s[..i + 1] + Swept(s[i + 1..])
  }

  lemma WalkStart(s: seq<Entry>)
    ensures Walked(s, |s| - 1) == s
  {
    assert s[..|s|] == s && s[|s|..] == [];
  }

  lemma WalkEnd(s: seq<Entry>)
    ensures Walked(s, -1) == Swept(s)
  {
    assert s[..0] == [] && s[0..] == s;
  }

  /**
   * One step of the downward walk: visiting position `i` (removing its key when it is a
   * check-in key) moves the walk to position `i - 1`.
   */
  lemma WalkStep(s: seq<Entry>, i: nat)
    requires DistinctKeys(s) && i < |s|
    ensures |Walked(s, i)| > i && Walked(s, i)[i] == s[i]
    ensures (if IsCheckinKey(s[i].key) then Remove(Walked(s, i), s[i].key) else Walked(s, i))
            == Walked(s, i - 1)
  {
    var key := s[i].key;
    var tail := s[i + 1..];
    assert s[i..] == [s[i]] + tail;
    assert s[..i + 1] == s[..i] + [s[i]];
    assert Walked(s, i) == s[..i] + ([s[i]] + Swept(tail));
    if IsCheckinKey(key) {
      RemoveConcat(s[..i], [s[i]] + Swept(tail), key);
      RemoveConcat([s[i]], Swept(tail), key);
      forall j | 0 <= j < |s[..i]| ensures s[..i][j].key != key {
        assert s[..i][j] == s[j];
      }
      RemoveAbsent(s[..i], key);
      forall j | 0 <= j < |tail| ensures tail[j].key != key {
        assert tail[j] == s[i + 1 + j];
      }
      SweptLookup(tail, key);
      RemoveAbsent(Swept(tail), key);
      assert Remove([s[i]], key) == [];
    }
  }

  /** `checkAndReset`: reads the marker and runs the reset when the guard holds. */
  method CheckAndReset(store: Store, boxes: array<bool>, day: Weekday, hour: Hour, today: string)
    requires store.Valid()
    modifies store, boxes
    ensures store.Valid()
    ensures store.entries == AfterLoad(old(store.entries), Clock(day, hour, today))
    ensures Fires(old(store.entries), Clock(day, hour, today)) ==>
              forall j :: 0 <= j < boxes.Length ==> !boxes[j]
    ensures !Fires(old(store.entries), Clock(day, hour, today)) ==> boxes[..] == old(boxes[..])
  {
    var lastResetDate := store.GetItem(LastResetKey);
    if ShouldReset(day, hour, lastResetDate, today) {
      ResetCheckins(store, boxes, today);
    }
  }

  /** The change handler of box `item` in table `table`: persist its new state. */
  method SaveCheckin(store: Store, table: nat, item: nat, checked: bool)
    requires store.Valid()
    modifies store
    ensures store.Valid()
    ensures store.entries == Put(old(store.entries), CheckinKey(table, item), EncodeChecked(checked))
  {
    store.SetItem(CheckinKey(table, item), EncodeChecked(checked));
  }

  /** Restores the boxes of table `table` from the store, item by item. */
  method RestoreTable(store: Store, table: nat, boxes: array<bool>)
    modifies boxes
    ensures forall i :: 0 <= i < boxes.Length ==> boxes[i] == RestoredState(store.entries, table, i)
  {
    for i := 0 to boxes.Length
      invariant forall k :: 0 <= k < i ==> boxes[k] == RestoredState(store.entries, table, k)
    {
      var stored := store.GetItem(CheckinKey(table, i));
      boxes[i] := stored == Some("true");
    }
  }

  /** `setupCheckinLogic`'s restore: every table in page order, every box in table order. */
  method RestoreCheckins(store: Store, tables: seq<array<bool>>)
    requires forall t, u :: 0 <= t < u < |tables| ==> tables[t] != tables[u]
    modifies set t | 0 <= t < |tables| :: tables[t]
    ensures forall t, i :: 0 <= t < |tables| && 0 <= i < tables[t].Length ==>
              tables[t][i] == RestoredState(store.entries, t, i)
  {
    for t := 0 to |tables|
      invariant forall u, i :: 0 <= u < t && 0 <= i < tables[u].Length ==>
                  tables[u][i] == RestoredState(store.entries, u, i)
    {
      RestoreTable(store, t, tables[t]);
    }
  }
}
