/** The table of open controllers and the current-device selection.
    The table (an unordered map from instance id to device handle) is seen through
    its iteration order: a sequence of distinct ids. */
module Devices {
  import opened Events

  /** The "no device selected" sentinel. */
  const NoDevice: int := -1

  predicate Distinct(ids: seq<int>)
  {
    forall i, j :: 0 <= i < j < |ids| ==> ids[i] != ids[j]
  }

  /** The selection invariant: the current id is a key of the table,
      or the sentinel when the table is empty. */
  predicate Selected(ids: seq<int>, cur: int)
  {
    cur in ids || (cur == NoDevice && ids == [])
  }

  /** The ordinal of `x` in iteration order, or |ids| when `x` is not a key. */
  function IndexOf(ids: seq<int>, x: int): (k: nat)
    ensures k <= |ids|
    ensures k < |ids| ==> ids[k] == x
    ensures forall j :: 0 <= j < k ==> ids[j] != x
    ensures k == |ids| <==> x !in ids
  {
    if ids == [] then 0
    else if ids[0] == x then 0
    else 1 + IndexOf(ids[1..], x)
  }

  lemma IndexOfAt(ids: seq<int>, k: nat)
    requires Distinct(ids) && k < |ids|
    ensures IndexOf(ids, ids[k]) == k
  {
  }

  /** `controllers.begin()->first`, or the sentinel for an empty table. */
  function First(ids: seq<int>): (c: int)
    ensures Selected(ids, c)
    ensures ids != [] ==> IndexOf(ids, c) == 0
  {
    if ids == [] then NoDevice else ids[0]
  }

  // ---------------------------------------------------------------- navigation

  /** The key after `cur`, wrapping from the last key to the first. */
  function Next(ids: seq<int>, cur: int): (n: int)
    requires cur in ids
    ensures n in ids
  {
    var k := IndexOf(ids, cur);
    if k != |ids| - 1 then ids[k + 1] else ids[0]
  }

  /** The key before `cur`, wrapping from the first key to the last.
      When `cur` is not a key, find() gives end(), which is not begin() of a
      non-empty table, so the step back from end() lands on the last key. */
  function Prev(ids: seq<int>, cur: int): (p: int)
    requires ids != []
    ensures p in ids
  {
    var k := IndexOf(ids, cur);
    if k != 0 then ids[k - 1] else ids[|ids| - 1]
  }

  lemma NextAt(ids: seq<int>, k: nat)
    requires Distinct(ids) && k < |ids|
    ensures Next(ids, ids[k]) == if k + 1 < |ids| then ids[k + 1] else ids[0]
  {
    IndexOfAt(ids, k);
  }

  lemma PrevAt(ids: seq<int>, k: nat)
    requires Distinct(ids) && k < |ids|
    ensures Prev(ids, ids[k]) == if k > 0 then ids[k - 1] else ids[|ids| - 1]
  {
    IndexOfAt(ids, k);
  }

  lemma PrevOfAbsent(ids: seq<int>, cur: int)
    requires ids != [] && cur !in ids
    ensures Prev(ids, cur) == ids[|ids| - 1]
  {
  }

  /** Prev undoes Next and Next undoes Prev. */
  lemma PrevNextInverse(ids: seq<int>, x: int)
    requires Distinct(ids) && x in ids
    ensures Prev(ids, Next(ids, x)) == x
    ensures Next(ids, Prev(ids, x)) == x
  {
    var k := IndexOf(ids, x);
    var n := |ids|;
    NextAt(ids, k);
    PrevAt(ids, k);
    if k + 1 < n { PrevAt(ids, k + 1); } else { PrevAt(ids, 0); }
    if k > 0 { NextAt(ids, k - 1); } else { NextAt(ids, n - 1); }
  }

  /** With a single device both steps stay where they are. */
  lemma SingleDeviceSteps(ids: seq<int>, x: int)
    requires |ids| == 1 && x in ids
    ensures Next(ids, x) == x && Prev(ids, x) == x
  {
  }

  /** `n` applications of Next. */
  function NextN(ids: seq<int>, x: int, n: nat): (y: int)
    requires x in ids
    ensures y in ids
    decreases n
  {
    if n == 0 then x else NextN(ids, Next(ids, x), n - 1)
  }

  /** `n` applications of Prev. */
  function PrevN(ids: seq<int>, x: int, n: nat): (y: int)
    requires x in ids
    ensures y in ids
    decreases n
  {
    if n == 0 then x else PrevN(ids, Prev(ids, x), n - 1)
  }

  lemma {:induction false} NextNAdd(ids: seq<int>, x: int, a: nat, b: nat)
    requires x in ids
    ensures NextN(ids, x, a + b) == NextN(ids, NextN(ids, x, a), b)
    decreases a
  {
    if a > 0 {
      NextNAdd(ids, Next(ids, x), a - 1, b);
    }
  }

  /** Walking forward from ordinal k without passing the end. */
  lemma {:induction false} NextNFrom(ids: seq<int>, k: nat, n: nat)
    requires Distinct(ids) && k + n < |ids|
    ensures NextN(ids, ids[k], n) == ids[k + n]
    decreases n
  {
    if n > 0 {
      NextAt(ids, k);
      NextNFrom(ids, k + 1, n - 1);
    }
  }

  /** Walking forward from ordinal k past the last key reaches the first. */
  lemma {:induction false} NextNToFirst(ids: seq<int>, k: nat)
    requires Distinct(ids) && k < |ids|
    ensures NextN(ids, ids[k], |ids| - k) == ids[0]
    decreases |ids| - k
  {
    NextAt(ids, k);
    if k + 1 < |ids| {
      NextNToFirst(ids, k + 1);
    }
  }

  lemma NextNCycleAt(ids: seq<int>, k: nat)
    requires Distinct(ids) && k < |ids|
    ensures NextN(ids, ids[k], |ids|) == ids[k]
  {
    var x, a := ids[k], |ids| - k;
    assert NextN(ids, x, a) == ids[0] by { NextNToFirst(ids, k); }
    assert NextN(ids, ids[0], k) == x by { NextNFrom(ids, 0, k); }
    NextNThrough(ids, x, ids[0], a, k);
  }

  /** Going a steps to `mid` and then b steps from `mid` is going a+b steps. */
  lemma NextNThrough(ids: seq<int>, x: int, mid: int, a: nat, b: nat)
    requires x in ids && mid in ids && NextN(ids, x, a) == mid
    ensures NextN(ids, x, a + b) == NextN(ids, mid, b)
  {
    NextNAdd(ids, x, a, b);
  }

  /** N forward steps on N keys come back to the start. */
  lemma NextNCycle(ids: seq<int>, x: int)
    requires Distinct(ids) && x in ids
    ensures NextN(ids, x, |ids|) == x
  {
    NextNCycleAt(ids, IndexOf(ids, x));
  }

  /** Forward steps from any key visit every key within fewer than N steps. */
  lemma NextNReaches(ids: seq<int>, x: int, y: int) returns (n: nat)
    requires Distinct(ids) && x in ids && y in ids
    ensures n < |ids| && NextN(ids, x, n) == y
  {
    var k, j := IndexOf(ids, x), IndexOf(ids, y);
    if k <= j {
      n := j - k;
      NextNFrom(ids, k, n);
    } else {
      n := |ids| - k + j;
      NextNAdd(ids, x, |ids| - k, j);
      NextNToFirst(ids, k);
      NextNFrom(ids, 0, j);
    }
  }

  /** n backward steps undo n forward steps. */
  lemma {:induction false} PrevNUndoesNextN(ids: seq<int>, x: int, n: nat)
    requires Distinct(ids) && x in ids
    ensures PrevN(ids, NextN(ids, x, n), n) == x
  {
    if n > 0 {
      var y := NextN(ids, x, n - 1);
      NextNAdd(ids, x, n - 1, 1);
      assert NextN(ids, x, n) == Next(ids, y);
      PrevNextInverse(ids, y);
      PrevNUndoesNextN(ids, x, n - 1);
    }
  }

  /** N backward steps on N keys come back to the start. */
  lemma PrevNCycle(ids: seq<int>, x: int)
    requires Distinct(ids) && x in ids
    ensures PrevN(ids, x, |ids|) == x
  {
    NextNCycle(ids, x);
    PrevNUndoesNextN(ids, x, |ids|);
  }

  /** Backward steps from any key visit every key within fewer than N steps. */
  lemma PrevNReaches(ids: seq<int>, x: int, y: int) returns (n: nat)
    requires Distinct(ids) && x in ids && y in ids
    ensures n < |ids| && PrevN(ids, x, n) == y
  {
    n := NextNReaches(ids, y, x);
    PrevNUndoesNextN(ids, y, n);
  }

  // ------------------------------------------------------- lookup by ordinal

  /** FindController: the i-th key when i is in range, otherwise no change.
      Lookup by ordinal keeps the selection invariant. */
  function Find(ids: seq<int>, cur: int, i: nat): (c: int)
    ensures Selected(ids, cur) ==> Selected(ids, c)
    ensures i >= |ids| ==> c == cur
  {
    if i < |ids| then ids[i] else cur
  }

  /** After a successful lookup by ordinal, CurIndex reports that ordinal. */
  lemma FindThenIndex(ids: seq<int>, cur: int, i: nat)
    requires Distinct(ids) && i < |ids|
    ensures IndexOf(ids, Find(ids, cur, i)) == i
  {
    IndexOfAt(ids, i);
  }

  // ------------------------------------------------------------ hot-plug

  /** `controllers.emplace(id, dev)`: no effect when `id` is already a key;
      otherwise `id` joins the iteration order at an unspecified place `pos`. */
  function Emplace(ids: seq<int>, id: int, pos: nat): (r: seq<int>)
    ensures forall x :: x in r <==> x in ids || x == id
    ensures id in ids ==> r == ids
    ensures |r| == if id in ids then |ids| else |ids| + 1
  {
    if id in ids then ids
    else
      var p := if pos < |ids| then pos else |ids|;
      assert ids == ids[..p] + ids[p..];
      ids[..p] + [id] + ids[p..]
  }

  lemma EmplaceDistinct(ids: seq<int>, id: int, pos: nat)
    requires Distinct(ids)
    ensures Distinct(Emplace(ids, id, pos))
  {
    if id !in ids {
      var p := if pos < |ids| then pos else |ids|;
      var r := Emplace(ids, id, pos);
      forall i, j | 0 <= i < j < |r| ensures r[i] != r[j] {
        if i < p && j > p {
          assert r[j] == ids[j - 1];
        } else if i > p {
          assert r[i] == ids[i - 1] && r[j] == ids[j - 1];
        }
      }
    }
  }

  /** `controllers.erase(id)`: removes `id`, keeping the order of the other keys. */
  function Erase(ids: seq<int>, id: int): (r: seq<int>)
    ensures forall x :: x in r <==> x in ids && x != id
    ensures Distinct(ids) ==> Distinct(r)
    ensures Distinct(ids) ==> |r| == if id in ids then |ids| - 1 else |ids|
  {
    if ids == [] then []
    else if ids[0] == id then Erase(ids[1..], id)
    else
      var rest := Erase(ids[1..], id);
      assert Distinct(ids) ==> Distinct(ids[1..]) && ids[0] !in ids[1..];
      [ids[0]] + rest
  }

  /** Selection after AddController, with the corrected guard: the first key
      is taken only when nothing is current and the table is not empty. */
  function AddSelect(ids: seq<int>, cur: int): (c: int)
    ensures cur != NoDevice ==> c == cur
    ensures cur in ids || cur == NoDevice ==> Selected(ids, c)
  {
    if cur == NoDevice && ids != [] then ids[0] else cur
  }

  /** Selection after AddController as written: `controllers.begin()->first`
      is read whenever nothing is current. None stands for dereferencing
      begin() of an empty table, which is undefined behaviour. That happens
      exactly when nothing is current and the table is empty; everywhere else
      the corrected guard agrees with the code as written. */
  function AddSelectAsWritten(ids: seq<int>, cur: int): (r: Option<int>)
    ensures r.None? <==> cur == NoDevice && ids == []
    ensures r.Some? ==> r.value == AddSelect(ids, cur)
  {
    if cur == NoDevice then (if ids == [] then None else Some(ids[0]))
    else Some(cur)
  }

  /** A failed open on an empty table with nothing current reaches the
      undefined dereference. */
  lemma AddFailedOpenUndefined()
    ensures AddSelectAsWritten([], NoDevice) == None
  {
  }

  /** AddController keeps the selection invariant, and a device added to an
      empty table becomes current. */
  lemma AddKeepsSelected(ids: seq<int>, cur: int, dev: Option<int>, pos: nat)
    requires Distinct(ids) && Selected(ids, cur)
    ensures var t := if dev.Some? then Emplace(ids, dev.value, pos) else ids;
      Distinct(t) && Selected(t, AddSelect(t, cur))
    ensures ids == [] && dev.Some? ==> AddSelect(Emplace(ids, dev.value, pos), cur) == dev.value
    ensures cur != NoDevice ==> AddSelect(if dev.Some? then Emplace(ids, dev.value, pos) else ids, cur) == cur
  {
    if dev.Some? {
      EmplaceDistinct(ids, dev.value, pos);
      if ids == [] {
        assert Emplace(ids, dev.value, pos) == [dev.value];
      }
    }
  }

  /** Selection after DelController: when the current device goes, the first
      remaining key (or the sentinel) takes its place, so a deleted device is
      never left current, unless it is the sentinel itself. */
  function DelSelect(ids: seq<int>, cur: int, id: int): (c: int)
    ensures id == cur ==> Selected(Erase(ids, id), c)
    ensures id != cur ==> c == cur
    ensures c == id ==> id == NoDevice
  {
    if id == cur then First(Erase(ids, id)) else cur
  }

  lemma DelKeepsSelected(ids: seq<int>, cur: int, id: int)
    requires Distinct(ids) && Selected(ids, cur)
    ensures Distinct(Erase(ids, id)) && Selected(Erase(ids, id), DelSelect(ids, cur, id))
    ensures id != cur ==> DelSelect(ids, cur, id) == cur
  {
    if ids == [] {
      assert Erase(ids, id) == [];
    }
  }

  /** The flag DelController passes as written: `id == curDevice` read after
      the reselection. It is false whenever a real id is deleted, even when the
      deleted device was the current one. */
  function DelFlagAsWritten(ids: seq<int>, cur: int, id: int): (flag: bool)
    ensures flag ==> id == NoDevice
  {
    id == DelSelect(ids, cur, id)
  }

  /** Two devices [5, 7] with 5 current: deleting 5 moves the selection to 7,
      yet the flag as written reports no change of selection. */
  lemma DelFlagAsWrittenExample()
    ensures DelSelect([5, 7], 5, 5) == 7
    ensures !DelFlagAsWritten([5, 7], 5, 5)
  {
    assert Erase([5, 7], 5) == [7] by {
      assert [5, 7][1..] == [7];
      assert Erase([7], 5) == [7] + Erase([], 5);
    }
  }

  /** The corrected flag: the deleted id was the current device. For every id
      other than the sentinel it is true exactly when the selection changes;
      it is true with the selection unchanged only when the sentinel itself was
      a key (see StartRumble) and was the last one. */
  function DelFlag(ids: seq<int>, cur: int, id: int): (flag: bool)
    ensures id != NoDevice ==> (flag <==> DelSelect(ids, cur, id) != cur)
    ensures flag && DelSelect(ids, cur, id) == cur ==> id == NoDevice && Erase(ids, id) == []
  {
    id == cur
  }

  /** The sentinel as a key: a table holding only -1, with -1 current, loses
      it on DelController(-1); the flag is true, yet the selection stays -1. */
  lemma DelSentinelKey()
    ensures DelFlag([NoDevice], NoDevice, NoDevice)
    ensures DelSelect([NoDevice], NoDevice, NoDevice) == NoDevice
  {
    assert Erase([NoDevice], NoDevice) == [] by {
      assert [NoDevice][1..] == [];
    }
  }
}
