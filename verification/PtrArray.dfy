/** The four-level pointer table (Buffer.h). */
module PtrArrays {

  /** An address. */
  type Ptr = int

  const NULL: Ptr := 0

  // A table of 256 entries points to tables of the next level or, at the last level, holds the
  // pointers. It comes from the memory as it is: nothing is known of its entries.

  class Table4 {
    var at: seq<Ptr>

    constructor ()
      ensures |at| == 256
    {
      var entries: seq<Ptr> := *;
      at := if |entries| == 256 then entries else seq(256, _ => NULL);
    }
  }

  class Table3 {
    var at: seq<Table4?>

    constructor ()
      ensures |at| == 256
    {
      var entries: seq<Table4?> := *;
      at := if |entries| == 256 then entries else seq(256, _ => null);
    }
  }

  class Table2 {
    var at: seq<Table3?>

    constructor ()
      ensures |at| == 256
    {
      var entries: seq<Table3?> := *;
      at := if |entries| == 256 then entries else seq(256, _ => null);
    }
  }

  class Table1 {
    var at: seq<Table2?>

    constructor ()
      ensures |at| == 256
    {
      var entries: seq<Table2?> := *;
      at := if |entries| == 256 then entries else seq(256, _ => null);
    }
  }

  /** How many pointers fit: the last table of the third level is opened together with its first
      entry but never filled. */
  const CAPACITY: nat := 0x1_0000_0000 - 65790

  /** How many tables of each level are open after n appends. A full table makes the next append
      open a new one, whatever room the tables below still have. */
  function Tables4(n: nat): nat { if n == 0 then 1 else (n + 255) / 256 }
  function Tables3(n: nat): nat { if n == 0 then 1 else Tables4(n - 1) / 256 + 1 }
  function Tables2(n: nat): nat { if n == 0 then 1 else Tables3(n - 1) / 256 + 1 }

  lemma Tables4Step(n: nat)
    ensures Tables4(n + 1) == Tables4(n) + if n > 0 && n == 256 * Tables4(n) then 1 else 0
    ensures n <= 256 * Tables4(n) <= n + 256
  {
  }

  lemma Tables3Step(n: nat)
    ensures Tables3(n + 1) == Tables3(n) + if Tables4(n) == 256 * Tables3(n) then 1 else 0
  {
    if n > 0 { Tables4Step(n - 1); }
  }

  lemma Tables2Step(n: nat)
    ensures Tables2(n + 1) == Tables2(n) + if Tables3(n) == 256 * Tables2(n) then 1 else 0
  {
    if n > 0 { Tables3Step(n - 1); }
  }

  /** The cursors decide when tables are opened exactly as Tables2, Tables3 and Tables4 say. */
  lemma PaceStep(n: nat, c1: nat, c2: nat, l3: nat, c3: nat, l4: nat, c4: nat)
    requires n <= CAPACITY && c1 == Tables2(n) && l3 == Tables3(n) && l4 == Tables4(n)
    requires l3 == 256 * (c1 - 1) + c2 && l4 == 256 * (l3 - 1) + c3 && n == 256 * (l4 - 1) + c4
    ensures Tables2(n + 1) == c1 + if c2 == 256 then 1 else 0
    ensures Tables3(n + 1) == l3 + if c3 == 256 then 1 else 0
    ensures Tables4(n + 1) == l4 + if c4 == 256 then 1 else 0
    ensures c1 == 256 && c2 == 256 <==> n == CAPACITY
    ensures c1 <= 256
  {
    FullExactly(n);
    Tables2Step(n);
    Tables3Step(n);
    Tables4Step(n);
  }

  lemma FullExactly(n: nat)
    requires n <= CAPACITY
    ensures Tables3(n) == 256 * Tables2(n) && Tables2(n) == 256 <==> n == CAPACITY
  {
  }

  /** Whether the memory can give another table; always, if it is unlimited. */
  method Granted(unlimited: bool) returns (ok: bool)
    ensures unlimited ==> ok
  {
    ok := *;
    ok := ok || unlimited;
  }

  /** The first table of each level, each below the one before, as far as the memory allows. */
  method FirstTables(unlimited: bool) returns (p1: Table1?, p2: Table2?, p3: Table3?, p4: Table4?)
    ensures unlimited ==> p4 != null
    ensures p1 != null ==> fresh(p1)
    ensures p4 != null ==> p3 != null && p2 != null && p1 != null && fresh({p2, p3, p4})
    ensures p4 != null ==> |p1.at| == |p2.at| == |p3.at| == |p4.at| == 256
    ensures p4 != null ==> p1.at[0] == p2 && p2.at[0] == p3 && p3.at[0] == p4
  {
    p1, p2, p3, p4 := null, null, null, null;
    var ok := Granted(unlimited);
    if ok {
      p1 := new Table1();
      ok := Granted(unlimited);
      if ok { p2 := new Table2(); }
      p1.at := p1.at[0 := p2];
    }
    if p2 != null {
      ok := Granted(unlimited);
      if ok { p3 := new Table3(); }
      p2.at := p2.at[0 := p3];
    }
    if p3 != null {
      ok := Granted(unlimited);
      if ok { p4 := new Table4(); }
      p3.at := p3.at[0 := p4];
    }
  }

  ghost predicate Distinct<T>(s: seq<T>) {
    forall j, k :: 0 <= j < k < |s| ==> s[j] != s[k]
  }

  class PtrArray {
    const unlimited: bool // the memory never runs out
    var m_Count: nat
    var m_full: bool
    var m_c1: nat
    var m_c2: nat
    var m_c3: nat
    var m_c4: nat
    var m_pp1: Table1?
    var m_pp2: Table2?
    var m_pp3: Table3?
    var m_pp4: Table4?

    ghost var ready: bool        // all four first tables could be allocated
    ghost var Contents: seq<Ptr>
    ghost var t2: seq<Table2>    // the open tables of each level, oldest first
    ghost var t3: seq<Table3>
    ghost var t4: seq<Table4>

    /** The cursors say how far the last open table of each level is in use. */
    ghost predicate Cursors()
      reads this
    {
      && 1 <= |t2| == m_c1 <= 256 && m_c2 <= 256 && m_c3 <= 256 && m_c4 <= 256
      && 1 <= |t3| == 256 * (|t2| - 1) + m_c2 && 1 <= |t4| == 256 * (|t3| - 1) + m_c3
      && m_Count == 256 * (|t4| - 1) + m_c4 == |Contents|
      && m_pp2 == t2[|t2| - 1] && m_pp3 == t3[|t3| - 1] && m_pp4 == t4[|t4| - 1]
    }

    /** The open tables are distinct and have 256 entries each. */
    ghost predicate Opened()
      reads this, m_pp1, t2, t3, t4
    {
      && Cursors() && m_pp1 != null && |m_pp1.at| == 256
      && (forall k {:trigger t2[k]} :: 0 <= k < |t2| ==> |t2[k].at| == 256)
      && (forall k {:trigger t3[k]} :: 0 <= k < |t3| ==> |t3[k].at| == 256)
      && (forall k {:trigger t4[k]} :: 0 <= k < |t4| ==> |t4[k].at| == 256)
      && Distinct(t2) && Distinct(t3) && Distinct(t4)
    }

    /** Each table hangs at its place below the first one, in order of opening, and the last level
        holds the contents. Nothing is known of the other entries. */
    ghost predicate Hangs()
      requires Opened()
      reads this, m_pp1, t2, t3, t4
    {
      && (forall k {:trigger t2[k]} :: 0 <= k < |t2| ==> m_pp1.at[k] == t2[k])
      && (forall a, b {:trigger t2[a].at[b]} :: 0 <= a < |t2| && 0 <= b < 256 && 256 * a + b < |t3| ==>
            t2[a].at[b] == t3[256 * a + b])
      && (forall a, b {:trigger t3[a].at[b]} :: 0 <= a < |t3| && 0 <= b < 256 && 256 * a + b < |t4| ==>
            t3[a].at[b] == t4[256 * a + b])
      && (forall a, b {:trigger t4[a].at[b]} :: 0 <= a < |t4| && 0 <= b < 256 && 256 * a + b < m_Count ==>
            t4[a].at[b] == Contents[256 * a + b])
    }

    /** The array and its tables. */
    ghost function Repr(): set<object>
      reads this
    {
      {this} + (if m_pp1 == null then {} else {m_pp1}) + (set t <- t2) + (set t <- t3) + (set t <- t4)
    }

    ghost predicate Valid()
      reads this, m_pp1, t2, t3, t4
    {
      && m_Count == |Contents| <= CAPACITY
      && (if ready then
            && Opened() && Hangs()
            && (!m_full ==> |t2| == Tables2(m_Count) && |t3| == Tables3(m_Count) && |t4| == Tables4(m_Count))
          else m_full && m_Count == 0)
    }

    constructor (unlimited: bool)
      ensures Valid() && Contents == [] && this.unlimited == unlimited
      ensures unlimited ==> !m_full
      ensures fresh(t2) && fresh(t3) && fresh(t4) && (m_pp1 != null ==> fresh(m_pp1))
    {
      var p1, p2, p3, p4 := FirstTables(unlimited);
      this.unlimited := unlimited;
      m_pp1, m_pp2, m_pp3, m_pp4 := p1, p2, p3, p4;
      m_full := p1 == null || p2 == null || p3 == null || p4 == null;
      m_Count, m_c1, m_c2, m_c3, m_c4 := 0, 1, 1, 1, 0;
      Contents, ready := [], p4 != null;
      if p4 != null {
        t2, t3, t4 := [p2], [p3], [p4];
      } else {
        t2, t3, t4 := [], [], [];
      }
    }

    /** If the last table of the second level is full, open one more, if the first table has room and
        the memory allows. */
    method Room2() returns (ok: bool)
      requires Opened() && Hangs() && !m_full
      modifies this`m_full, this`m_pp2, this`m_c1, this`m_c2, this`t2, m_pp1
      ensures Opened() && Hangs() && m_full == !ok
      ensures ok ==> m_c2 < 256
      ensures forall t <- t2 :: t in old(t2) || fresh(t)
      ensures if ok && old(m_c2) == 256 then fresh(m_pp2) && t2 == old(t2) + [m_pp2]
              else t2 == old(t2) && m_pp2 == old(m_pp2)
      ensures old(m_c2) == 256 && old(m_c1) == 256 ==> !ok
      ensures unlimited && (old(m_c2) < 256 || old(m_c1) < 256) ==> ok
    {
      if m_c2 < 256 { return true; }
      m_full := m_c1 == 256;
      if m_full { return false; }
      ok := Granted(unlimited);
      m_full := !ok;
      if m_full { return; }
      var t := new Table2();
      Hang2(t);
    }

    method Hang2(t: Table2)
      requires Opened() && Hangs() && m_c2 == 256 && m_c1 < 256 && t !in t2 && |t.at| == 256
      modifies this`m_pp2, this`m_c1, this`m_c2, this`t2, m_pp1
      ensures Opened() && Hangs()
      ensures m_pp2 == t && t2 == old(t2) + [t] && m_c2 == 0
    {
      m_pp2 := t;
      m_pp1.at := m_pp1.at[m_c1 := t];
      t2 := t2 + [t];
      m_c2 := 0;
      m_c1 := m_c1 + 1;
    }

    method Room3() returns (ok: bool)
      requires Opened() && Hangs() && !m_full && m_c2 < 256
      modifies this`m_full, this`m_pp3, this`m_c2, this`m_c3, this`t3, m_pp2
      ensures Opened() && Hangs() && m_full == !ok
      ensures ok ==> m_c3 < 256
      ensures forall t <- t3 :: t in old(t3) || fresh(t)
      ensures if ok && old(m_c3) == 256 then fresh(m_pp3) && t3 == old(t3) + [m_pp3]
              else t3 == old(t3) && m_pp3 == old(m_pp3)
      ensures unlimited ==> ok
    {
      if m_c3 < 256 { return true; }
      ok := Granted(unlimited);
      m_full := !ok;
      if m_full { return; }
      var t := new Table3();
      Hang3(t);
    }

    method Hang3(t: Table3)
      requires Opened() && Hangs() && m_c3 == 256 && m_c2 < 256 && t !in t3 && |t.at| == 256
      modifies this`m_pp3, this`m_c2, this`m_c3, this`t3, m_pp2
      ensures Opened() && Hangs()
      ensures m_pp3 == t && t3 == old(t3) + [t] && m_c3 == 0
    {
      m_pp3 := t;
      m_pp2.at := m_pp2.at[m_c2 := t];
      t3 := t3 + [t];
      m_c3 := 0;
      m_c2 := m_c2 + 1;
    }

    method Room4() returns (ok: bool)
      requires Opened() && Hangs() && !m_full && m_c3 < 256
      modifies this`m_full, this`m_pp4, this`m_c3, this`m_c4, this`t4, m_pp3
      ensures Opened() && Hangs() && m_full == !ok
      ensures ok ==> m_c4 < 256
      ensures forall t <- t4 :: t in old(t4) || fresh(t)
      ensures if ok && old(m_c4) == 256 then fresh(m_pp4) && t4 == old(t4) + [m_pp4]
              else t4 == old(t4) && m_pp4 == old(m_pp4)
      ensures unlimited ==> ok
    {
      if m_c4 < 256 { return true; }
      ok := Granted(unlimited);
      m_full := !ok;
      if m_full { return; }
      var t := new Table4();
      Hang4(t);
    }

    method Hang4(t: Table4)
      requires Opened() && Hangs() && m_c4 == 256 && m_c3 < 256 && t !in t4 && |t.at| == 256
      modifies this`m_pp4, this`m_c3, this`m_c4, this`t4, m_pp3
      ensures Opened() && Hangs()
      ensures m_pp4 == t && t4 == old(t4) + [t] && m_c4 == 0
    {
      m_pp4 := t;
      m_pp3.at := m_pp3.at[m_c3 := t];
      t4 := t4 + [t];
      m_c4 := 0;
      m_c3 := m_c3 + 1;
    }

    /** Append p. When a table cannot be opened nothing readable changes, and the array accepts no more. */
    method AddPtr(p: Ptr) returns (r: Ptr)
      requires Valid()
      modifies this, m_pp1, t2, t3, t4
      ensures Valid()
      ensures (Contents == old(Contents) + [p] && r == p) || (Contents == old(Contents) && r == NULL && m_full)
      ensures if old(m_full) then m_full && Contents == old(Contents) else m_full <==> Contents == old(Contents)
      ensures m_pp1 == old(m_pp1) && (forall t <- t2 :: t in old(t2) || fresh(t))
      ensures (forall t <- t3 :: t in old(t3) || fresh(t)) && (forall t <- t4 :: t in old(t4) || fresh(t))
      ensures unlimited && !old(m_full) ==> (Contents == old(Contents) + [p] <==> |old(Contents)| < CAPACITY)
    {
      hide PtrArray.Opened, PtrArray.Hangs, PtrArray.Cursors;
      if m_full {
        return NULL;
      }
      var ok := MakeRoom();
      if !ok {
        return NULL;
      }
      Store(p);
      r := p;
    }

    /** Open the tables that must be open before one more pointer can be stored. */
    method MakeRoom() returns (ok: bool)
      requires Valid() && !m_full
      modifies this`m_full, this`m_pp2, this`m_pp3, this`m_pp4, this`m_c1, this`m_c2, this`m_c3, this`m_c4, this`t2
      modifies this`t3, this`t4
      modifies m_pp1, t2, t3
      ensures Opened() && Hangs() && m_full == !ok
      ensures ok ==> m_c4 < 256 && m_Count < CAPACITY && (m_pp4 in old(t4) || fresh(m_pp4))
      ensures ok ==> |t2| == Tables2(m_Count + 1) && |t3| == Tables3(m_Count + 1) && |t4| == Tables4(m_Count + 1)
      ensures unlimited && m_Count < CAPACITY ==> ok
      ensures m_pp1 == old(m_pp1) && (forall t <- t2 :: t in old(t2) || fresh(t))
      ensures (forall t <- t3 :: t in old(t3) || fresh(t)) && (forall t <- t4 :: t in old(t4) || fresh(t))
    {
      PaceStep(m_Count, m_c1, m_c2, |t3|, m_c3, |t4|, m_c4);
      ok := RoomBelow();
    }

    method RoomBelow() returns (ok: bool)
      requires Opened() && Hangs() && !m_full
      modifies this`m_full, this`m_pp2, this`m_pp3, this`m_pp4, this`m_c1, this`m_c2, this`m_c3, this`m_c4, this`t2
      modifies this`t3, this`t4
      modifies m_pp1, t2, t3
      ensures Opened() && Hangs() && m_full == !ok
      ensures ok ==> m_c4 < 256 && (m_pp4 in old(t4) || fresh(m_pp4))
      ensures ok ==> |t2| == old(|t2|) + (if old(m_c2) == 256 then 1 else 0)
      ensures ok ==> |t3| == old(|t3|) + (if old(m_c3) == 256 then 1 else 0)
      ensures ok ==> |t4| == old(|t4|) + (if old(m_c4) == 256 then 1 else 0)
      ensures old(m_c2) == 256 && old(m_c1) == 256 ==> !ok
      ensures unlimited && (old(m_c2) < 256 || old(m_c1) < 256) ==> ok
      ensures (forall t <- t2 :: t in old(t2) || fresh(t)) && (forall t <- t3 :: t in old(t3) || fresh(t))
      ensures (forall t <- t4 :: t in old(t4) || fresh(t))
    {
      hide PtrArray.Hangs;
      ok := Room2();
      if ok {
        ok := Room3();
        if ok {
          ok := Room4();
        }
      }
    }

    /** Put p in the leaf being filled. */
    method Store(p: Ptr)
      requires Opened() && Hangs() && m_c4 < 256
      modifies this`m_c4, this`m_Count, this`Contents, m_pp4
      ensures Opened() && Hangs()
      ensures Contents == old(Contents) + [p] && m_Count == old(m_Count) + 1
    {
      m_pp4.at := m_pp4.at[m_c4 := p];
      Contents := Contents + [p];
      m_c4 := m_c4 + 1;
      m_Count := m_Count + 1;
    }

    method Get(i: nat) returns (p: Ptr)
      requires Valid() && i < 0x1_0000_0000
      ensures p == if i < |Contents| then Contents[i] else NULL
    {
      if i >= m_Count {
        return NULL;
      }
      var leaf := Leaf(i);
      p := leaf.at[i % 0x100];
    }

    method Set(i: nat, p: Ptr)
      requires Valid() && i < 0x1_0000_0000
      modifies this`Contents, t4
      ensures Valid()
      ensures Contents == if i < |old(Contents)| then old(Contents)[i := p] else old(Contents)
    {
      if i >= m_Count {
        return;
      }
      var leaf := Leaf(i);
      StoreAt(leaf, i / 0x100, i % 0x100, p);
    }

    method StoreAt(leaf: Table4, ghost a: nat, b: nat, p: Ptr)
      requires Opened() && Hangs() && a < |t4| && b < 0x100 && 0x100 * a + b < m_Count && leaf == t4[a]
      modifies this`Contents, leaf
      ensures Opened() && Hangs() && Contents == old(Contents)[0x100 * a + b := p]
    {
      leaf.at := leaf.at[b := p];
      Contents := Contents[0x100 * a + b := p];
    }

    /** The last-level table that holds entry i: one byte of the index per level. */
    method Leaf(i: nat) returns (leaf: Table4)
      requires Valid() && i < m_Count
      ensures i / 0x100 < |t4| && leaf == t4[i / 0x100]
    {
      var c1 := i / 0x100_0000;
      var c2 := i / 0x1_0000 % 0x100;
      var c3 := i / 0x100 % 0x100;
      assert i / 0x100 == 0x100 * (i / 0x1_0000) + c3 && i / 0x1_0000 == 0x100 * c1 + c2;
      var pp2 := m_pp1.at[c1];
      assert pp2 == t2[c1];
      var pp3 := pp2.at[c2];
      assert pp3 == t3[i / 0x1_0000];
      leaf := pp3.at[c3];
    }
  }
}
