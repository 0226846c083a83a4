/** The lock table: which transactions hold which records, and in which mode. */
module Locking {
  import opened Records
  import HashSets

  datatype LockType = NONE | SHARED | EXCLUSIVE

  class Transaction {
    const txnId: int
    var locksHeld: set<RID>

    constructor (txnId: int)
      ensures this.txnId == txnId && locksHeld == {}
    {
      this.txnId, locksHeld := txnId, {};
    }

    method HasLock(rid: RID) returns (has: bool)
      ensures has == (rid in locksHeld)
    {
      has := rid in locksHeld;
    }

    method AddLock(rid: RID)
      modifies this
      ensures locksHeld == old(locksHeld) + {rid}
    {
      locksHeld := locksHeld + {rid};
    }

    method RemoveLock(rid: RID)
      modifies this
      ensures locksHeld == old(locksHeld) - {rid}
    {
      locksHeld := locksHeld - {rid};
    }
  }

  datatype LockInfo = LockInfo(lockType: LockType, holders: set<Transaction>)

  class LockManager {
    var lockTable: map<RID, LockInfo>
    ghost var clients: set<Transaction>  // the transactions that ever asked this manager for anything
    ghost var granted: map<(Transaction, RID), LockType>  // the mode in which each holder was let in

    ghost function Info(rid: RID): LockInfo
      reads this
    {
      if rid in lockTable then lockTable[rid] else LockInfo(NONE, {})
    }

    /** An entry is in mode NONE exactly without holders, and every holder was let in in the entry's mode. */
    ghost predicate EntryOk(rid: RID)
      reads this
    {
      && (Info(rid).holders == {} <==> Info(rid).lockType == NONE)
      && Info(rid).holders <= clients
      && forall t :: t in Info(rid).holders ==> (t, rid) in granted && granted[(t, rid)] == Info(rid).lockType
    }

    ghost predicate ClientOk(t: Transaction)
      reads this, t
    {
      forall rid :: rid in t.locksHeld <==> t in Info(rid).holders
    }

    /** Holder sets and the transactions' own lock sets say the same. */
    ghost predicate Valid()
      reads this, clients
    {
      && (forall rid :: EntryOk(rid))
      && forall t :: t in clients ==> ClientOk(t)
    }

    constructor ()
      ensures Valid() && lockTable == map[] && clients == {}
    {
      lockTable, clients, granted := map[], {}, map[];
    }

    /** A transaction this manager knows, or a new one without locks. */
    ghost predicate Admits(txn: Transaction)
      reads this, txn
    {
      txn in clients || txn.locksHeld == {}
    }

    /** Walks the holders until it meets another transaction. */
    static method HeldByOthers(holders: set<Transaction>, txn: Transaction) returns (held: bool)
      ensures held <==> exists t :: t in holders && t != txn
    {
      var todo := holders;
      while todo != {}
        invariant todo <= holders && forall t :: t in holders && t !in todo ==> t == txn
        decreases todo
      {
        var t := HashSets.AnyOf(todo);
        if t != txn {
          return true;
        }
        todo := todo - {t};
      }
      held := false;
    }

    /** The grant itself. */
    method Grant(txn: Transaction, rid: RID, mode: LockType)
      requires Valid() && Admits(txn) && mode != NONE
      requires txn !in Info(rid).holders && (Info(rid).holders != {} ==> Info(rid).lockType == mode)
      modifies this, txn
      ensures Valid() && clients == old(clients) + {txn}
      ensures Info(rid) == LockInfo(mode, old(Info(rid)).holders + {txn})
      ensures forall r :: r != rid ==> Info(r) == old(Info(r))
      ensures txn.locksHeld == old(txn.locksHeld) + {rid}
    {
      var holders := if rid in lockTable then lockTable[rid].holders else {};
      lockTable := lockTable[rid := LockInfo(mode, holders + {txn})];
      txn.AddLock(rid);
      clients := clients + {txn};
      granted := granted[(txn, rid) := mode];
      forall r ensures EntryOk(r) {
        assert old(EntryOk(r));
      }
      forall r ensures r in txn.locksHeld <==> txn in Info(r).holders {
        assert old(EntryOk(r));
        assert txn in old(clients) ==> old(ClientOk(txn));
      }
      forall t | t in clients ensures ClientOk(t) {
        assert t in old(clients) ==> old(ClientOk(t));
      }
    }

    /** An empty entry says no more than no entry. */
    twostate lemma StillValid()
      requires old(Valid()) && clients == old(clients) && granted == old(granted)
      requires forall r :: Info(r) == old(Info(r))
      requires forall t :: t in old(clients) ==> unchanged(t)
      ensures Valid()
    {
      forall r ensures EntryOk(r) {
        assert old(EntryOk(r));
      }
      forall t | t in clients ensures ClientOk(t) {
        assert old(ClientOk(t));
      }
    }

    method LockShared(txn: Transaction?, rid: RID) returns (ok: bool)
      requires Valid() && (txn != null ==> Admits(txn))
      modifies this, txn
      ensures Valid()
      ensures txn == null ==> !ok && lockTable == old(lockTable)
      ensures txn != null ==>
                (ok <==> txn in old(Info(rid)).holders || old(Info(rid)).lockType != EXCLUSIVE)
      ensures txn != null && ok ==> txn in Info(rid).holders && rid in txn.locksHeld && txn in clients
      ensures old(clients) <= clients
      ensures txn != null && ok && txn !in old(Info(rid)).holders ==>
                Info(rid) == LockInfo(SHARED, old(Info(rid)).holders + {txn})
      ensures !ok || txn in old(Info(rid)).holders ==> forall r :: Info(r) == old(Info(r))
      ensures forall r :: r != rid ==> Info(r) == old(Info(r))
    {
      if txn == null {
        return false;
      }
      assert EntryOk(rid);
      if rid !in lockTable {
        lockTable := lockTable[rid := LockInfo(NONE, {})];
      }
      var info := lockTable[rid];
      if txn in info.holders {
        StillValid();
        return true;
      }
      var heldByOthers := HeldByOthers(info.holders, txn);
      StillValid();
      if heldByOthers {
        if info.lockType == EXCLUSIVE {
          return false;
        }
      }
      Grant(txn, rid, SHARED);
      ok := true;
    }

    method LockExclusive(txn: Transaction?, rid: RID) returns (ok: bool)
      requires Valid() && (txn != null ==> Admits(txn))
      modifies this, txn
      ensures Valid()
      ensures txn == null ==> !ok && lockTable == old(lockTable)
      ensures txn != null ==>
                (ok <==> txn in old(Info(rid)).holders || old(Info(rid)).lockType != SHARED)
      ensures txn != null && ok ==> txn in Info(rid).holders && rid in txn.locksHeld && txn in clients
      ensures old(clients) <= clients
      ensures txn != null && ok && txn !in old(Info(rid)).holders ==>
                Info(rid) == LockInfo(EXCLUSIVE, old(Info(rid)).holders + {txn})
      ensures !ok || txn in old(Info(rid)).holders ==> forall r :: Info(r) == old(Info(r))
      ensures forall r :: r != rid ==> Info(r) == old(Info(r))
      // The caller really is alone exactly if the record was free or already its own in exclusive mode.
      ensures txn != null ==>
                (ok && Info(rid) == LockInfo(EXCLUSIVE, {txn}) <==>
                  old(Info(rid)).holders == {} || old(Info(rid)) == LockInfo(EXCLUSIVE, {txn}))
    {
      if txn == null {
        return false;
      }
      assert EntryOk(rid);
      if rid !in lockTable {
        lockTable := lockTable[rid := LockInfo(NONE, {})];
      }
      var info := lockTable[rid];
      if txn in info.holders {
        StillValid();
        return true;
      }
      var heldByOthers := HeldByOthers(info.holders, txn);
      StillValid();
      if heldByOthers {
        if info.lockType == SHARED {
          return false;
        }
      }
      Grant(txn, rid, EXCLUSIVE);
      ok := true;
    }

    /** A transaction's own lock set answers for the lock table. */
    method Holds(txn: Transaction, rid: RID) returns (has: bool)
      requires Valid() && txn in clients
      ensures has == (txn in Info(rid).holders)
    {
      assert ClientOk(txn);
      has := txn.HasLock(rid);
    }

    method Unlock(txn: Transaction?, rid: RID) returns (ok: bool)
      requires Valid() && (txn != null ==> Admits(txn))
      modifies this, txn
      ensures Valid() && ok == (txn != null)
      ensures txn == null ==> lockTable == old(lockTable)
      ensures txn != null ==> rid !in txn.locksHeld
      ensures txn != null ==> Info(rid).holders == old(Info(rid)).holders - {txn}
      ensures txn != null ==> Info(rid).lockType == if Info(rid).holders == {} then NONE else old(Info(rid)).lockType
      ensures forall r :: r != rid ==> Info(r) == old(Info(r))
    {
      if txn == null {
        return false;
      }
      assert EntryOk(rid);
      if rid in lockTable {
        var holders := lockTable[rid].holders - {txn};
        lockTable := lockTable[rid := LockInfo(if holders == {} then NONE else lockTable[rid].lockType, holders)];
      }
      txn.RemoveLock(rid);
      clients := clients + {txn};
      forall r ensures EntryOk(r) && (r in txn.locksHeld <==> txn in Info(r).holders) {
        assert old(EntryOk(r));
        assert txn in old(clients) ==> old(ClientOk(txn));
      }
      forall t | t in clients ensures ClientOk(t) {
        assert t in old(clients) ==> old(ClientOk(t));
      }
      ok := true;
    }
  }

  /** Holders let in as readers and as a writer never share a record. */
  lemma ModesSeparate(m: LockManager, rid: RID, t: Transaction, u: Transaction)
    requires m.Valid() && t in m.Info(rid).holders && u in m.Info(rid).holders
    ensures (t, rid) in m.granted && (u, rid) in m.granted && m.granted[(t, rid)] == m.granted[(u, rid)] != NONE
  {
    assert m.EntryOk(rid);
  }

  /** Exclusive is not single: two transactions end up holding one record in exclusive mode. */
  method TwoWriters(rid: RID) returns (m: LockManager, t: Transaction, u: Transaction)
    ensures m.Valid() && t != u && m.Info(rid) == LockInfo(EXCLUSIVE, {t, u})
  {
    m := new LockManager();
    t := new Transaction(1);
    u := new Transaction(2);
    var first := m.LockExclusive(t, rid);
    var second := m.LockExclusive(u, rid);
  }

  /** A reader that asks for exclusive access is told yes and stays a reader among readers. */
  method UpgradeIgnored(rid: RID) returns (m: LockManager, t: Transaction, u: Transaction, ok: bool)
    ensures m.Valid() && t != u && ok && m.Info(rid) == LockInfo(SHARED, {t, u})
  {
    m := new LockManager();
    t := new Transaction(1);
    u := new Transaction(2);
    var first := m.LockShared(t, rid);
    var second := m.LockShared(u, rid);
    ok := m.LockExclusive(t, rid);
  }
}
