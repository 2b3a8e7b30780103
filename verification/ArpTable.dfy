/** The fixed table of IP-to-MAC mappings of sr_arpcache.c, as values: what each pass over it computes,
    and what relates the table to the history of insertions. */
module ArpTable {
  import opened Wrappers
  import opened IpFrame

  const SLOTS: nat := 100
  const TIMEOUT: int := 15

  datatype Entry = Entry(mac: Mac, ip: Ip, added: int, valid: bool)

  /** A slot as memset leaves it. */
  const NO_ENTRY := Entry([0, 0, 0, 0, 0, 0], 0, 0, false)

  predicate Hit(e: Entry, ip: Ip) {
    e.valid && e.ip == ip
  }

  /** The valid entry for ip in the highest slot. */
  function Lookup(table: seq<Entry>, ip: Ip): Option<Entry> {
    if table == [] then None
    else if Hit(table[|table| - 1], ip) then Some(table[|table| - 1])
    else Lookup(table[..|table| - 1], ip)
  }

  /** The first slot not in use, or the length of the table. */
  function FreeSlot(table: seq<Entry>): (slot: nat)
    ensures slot <= |table|
    ensures slot < |table| ==> !table[slot].valid
  {
    if table == [] || !table[0].valid then 0 else 1 + FreeSlot(table[1..])
  }

  function Learn(table: seq<Entry>, mac: Mac, ip: Ip, now: int): (r: seq<Entry>)
    ensures |r| == |table|
  {
    var slot := FreeSlot(table);
    if slot < |table| then table[slot := Entry(mac, ip, now, true)] else table
  }

  function ExpireEntry(e: Entry, now: int): Entry {
    if e.valid && now - e.added > TIMEOUT then e.(valid := false) else e
  }

  function Expire(table: seq<Entry>, now: int): (r: seq<Entry>)
    ensures |r| == |table|
    ensures forall i :: 0 <= i < |table| ==> r[i] == ExpireEntry(table[i], now)
  {
    seq(|table|, i requires 0 <= i < |table| => ExpireEntry(table[i], now))
  }

  // ---------- The lookup ----------

  /** A lookup succeeds exactly if some valid entry is for the address, and then returns the one in the
      highest slot: every slot above it misses. */
  lemma {:induction false} LookupFindsHighest(table: seq<Entry>, ip: Ip)
    ensures match Lookup(table, ip)
            case Some(e) => exists k :: 0 <= k < |table| && table[k] == e && Hit(e, ip)
                              && forall j :: k < j < |table| ==> !Hit(table[j], ip)
            case None => forall j :: 0 <= j < |table| ==> !Hit(table[j], ip)
  {
    if table != [] {
      var n := |table| - 1;
      if Hit(table[n], ip) {
        assert table[n] == Lookup(table, ip).value;
      } else {
        LookupFindsHighest(table[..n], ip);
        if Lookup(table, ip).Some? {
          var e := Lookup(table, ip).value;
          var k :| 0 <= k < n && table[..n][k] == e && forall j :: k < j < n ==> !Hit(table[..n][j], ip);
          assert table[k] == e && Hit(e, ip);
          assert forall j :: k < j < |table| ==> !Hit(table[j], ip) by {
            forall j | k < j < |table| ensures !Hit(table[j], ip) {
              if j < n { assert table[j] == table[..n][j]; }
            }
          }
        } else {
          forall j | 0 <= j < |table| ensures !Hit(table[j], ip) {
            if j < n { assert table[j] == table[..n][j]; }
          }
        }
      }
    }
  }

  // ---------- The table against the history ----------

  /** One call of sr_arpcache_insert; stored says whether it found a free slot. */
  datatype Insertion = Insertion(ip: Ip, mac: Mac, at: int, stored: bool)

  function EntryOf(i: Insertion): Entry {
    Entry(i.mac, i.ip, i.at, true)
  }

  /** Every valid entry was stored by an insertion, and is at most TIMEOUT older than the last pass. */
  ghost predicate Sound(table: seq<Entry>, log: seq<Insertion>, lastPass: int) {
    forall k :: 0 <= k < |table| && table[k].valid ==> Backed(table[k], log) && lastPass - table[k].added <= TIMEOUT
  }

  ghost predicate Backed(e: Entry, log: seq<Insertion>) {
    exists i :: 0 <= i < |log| && log[i].stored && EntryOf(log[i]) == e
  }

  /** Every stored mapping that no pass has found too old is still there. */
  ghost predicate Complete(table: seq<Entry>, log: seq<Insertion>, lastPass: int) {
    forall i :: 0 <= i < |log| && log[i].stored && lastPass - log[i].at <= TIMEOUT ==> EntryOf(log[i]) in table
  }

  ghost predicate Faithful(table: seq<Entry>, log: seq<Insertion>, lastPass: int) {
    |table| == SLOTS && Sound(table, log, lastPass) && Complete(table, log, lastPass)
  }

  function Logged(table: seq<Entry>, log: seq<Insertion>, mac: Mac, ip: Ip, now: int): seq<Insertion> {
    log + [Insertion(ip, mac, now, FreeSlot(table) < |table|)]
  }

  lemma StoreKeepsFaithful(table: seq<Entry>, log: seq<Insertion>, lastPass: int, mac: Mac, ip: Ip, now: int)
    requires Faithful(table, log, lastPass) && lastPass <= now
    ensures Faithful(Learn(table, mac, ip, now), Logged(table, log, mac, ip, now), lastPass)
  {
    StoreKeepsSound(table, log, lastPass, mac, ip, now);
    StoreKeepsComplete(table, log, lastPass, mac, ip, now);
  }

  lemma StoreKeepsSound(table: seq<Entry>, log: seq<Insertion>, lastPass: int, mac: Mac, ip: Ip, now: int)
    requires Sound(table, log, lastPass) && lastPass <= now
    ensures Sound(Learn(table, mac, ip, now), Logged(table, log, mac, ip, now), lastPass)
  {
    var slot, table', log' := FreeSlot(table), Learn(table, mac, ip, now), Logged(table, log, mac, ip, now);
    forall k | 0 <= k < |table'| && table'[k].valid
      ensures Backed(table'[k], log') && lastPass - table'[k].added <= TIMEOUT
    {
      if k == slot {
        assert EntryOf(log'[|log|]) == table'[k];
      } else {
        assert Backed(table[k], log);
        var i :| 0 <= i < |log| && log[i].stored && EntryOf(log[i]) == table[k];
        assert log'[i] == log[i];
      }
    }
  }

  lemma StoreKeepsComplete(table: seq<Entry>, log: seq<Insertion>, lastPass: int, mac: Mac, ip: Ip, now: int)
    requires Complete(table, log, lastPass)
    ensures Complete(Learn(table, mac, ip, now), Logged(table, log, mac, ip, now), lastPass)
  {
    var slot, table', log' := FreeSlot(table), Learn(table, mac, ip, now), Logged(table, log, mac, ip, now);
    forall i | 0 <= i < |log'| && log'[i].stored && lastPass - log'[i].at <= TIMEOUT
      ensures EntryOf(log'[i]) in table'
    {
      if i < |log| {
        assert log'[i] == log[i];
        var k :| 0 <= k < |table| && table[k] == EntryOf(log[i]);
        assert table'[k] == table[k];
      } else {
        assert table'[slot] == EntryOf(log'[i]);
      }
    }
  }

  lemma ExpireKeepsFaithful(table: seq<Entry>, log: seq<Insertion>, lastPass: int, now: int)
    requires Faithful(table, log, lastPass) && lastPass <= now
    ensures Faithful(Expire(table, now), log, now)
  {
    var table' := Expire(table, now);
    forall i | 0 <= i < |log| && log[i].stored && now - log[i].at <= TIMEOUT
      ensures EntryOf(log[i]) in table'
    {
      var k :| 0 <= k < |table| && table[k] == EntryOf(log[i]);
      assert table'[k] == table[k];
    }
  }

  /** A lookup that succeeds returns a mapping inserted for that address at the recorded time, no more
      than TIMEOUT before the latest expiry pass. */
  lemma {:induction false} LookupIsBacked(table: seq<Entry>, log: seq<Insertion>, lastPass: int, ip: Ip)
    requires Faithful(table, log, lastPass)
    ensures Lookup(table, ip).Some? ==>
              var e := Lookup(table, ip).value;
              e.ip == ip && Backed(e, log) && lastPass - e.added <= TIMEOUT
  {
    LookupFindsHighest(table, ip);
  }

  /** A mapping that found a free slot and that no pass has found too old keeps its address known. */
  lemma {:induction false} StoredIsFound(table: seq<Entry>, log: seq<Insertion>, lastPass: int, i: nat)
    requires Faithful(table, log, lastPass)
    requires i < |log| && log[i].stored && lastPass - log[i].at <= TIMEOUT
    ensures Lookup(table, log[i].ip).Some?
  {
    LookupFindsHighest(table, log[i].ip);
    var k :| 0 <= k < |table| && table[k] == EntryOf(log[i]);
    assert Hit(table[k], log[i].ip);
  }

  /** After an insertion the address is known, unless the table was full of valid entries and had
      none for it. */
  lemma {:induction false} LookupAfterStore(table: seq<Entry>, mac: Mac, ip: Ip, now: int)
    ensures Lookup(Learn(table, mac, ip, now), ip).Some?
       <==> FreeSlot(table) < |table| || Lookup(table, ip).Some?
  {
    var slot, table' := FreeSlot(table), Learn(table, mac, ip, now);
    LookupFindsHighest(table', ip);
    if slot < |table| {
      assert Hit(table'[slot], ip);
    }
  }

  /** There is a free slot, and no valid entry for the address above the first one. */
  predicate RoomAbove(table: seq<Entry>, ip: Ip) {
    FreeSlot(table) < |table| && forall j :: FreeSlot(table) < j < |table| ==> !Hit(table[j], ip)
  }

  /** Looking up the address of a new entry gives that entry exactly if it found a slot above every valid
      entry for the address, or the lookup gave an equal entry before. */
  lemma {:induction false} NewestIsFoundExactly(table: seq<Entry>, mac: Mac, ip: Ip, now: int)
    ensures var e := Entry(mac, ip, now, true);
            Lookup(Learn(table, mac, ip, now), ip) == Some(e)
            <==> RoomAbove(table, ip) || Lookup(table, ip) == Some(e)
  {
    hide FreeSlot, Lookup;
    var slot, table' := FreeSlot(table), Learn(table, mac, ip, now);
    LookupFindsHighest(table, ip);
    LookupFindsHighest(table', ip);
    if slot < |table| {
      assert Hit(table'[slot], ip);
      HighestAbove(table, table', slot, ip);
    }
  }

  /** Filling a slot below a valid entry for the address changes nothing for the lookup. */
  lemma {:induction false} HighestAbove(table: seq<Entry>, table': seq<Entry>, slot: nat, ip: Ip)
    requires slot < |table| == |table'| && Hit(table'[slot], ip)
    requires forall j :: 0 <= j < |table| && j != slot ==> table'[j] == table[j]
    ensures Lookup(table', ip) == if exists j :: slot < j < |table| && Hit(table[j], ip) then Lookup(table, ip)
                                  else Some(table'[slot])
  {
    if j :| slot < j < |table| && Hit(table[j], ip) {
      HighestIs(table, table', j, ip);
    } else {
      LookupAt(table', slot, ip);
    }
  }

  /** Two tables with the same entries from a hit on have the same lookup. */
  lemma {:induction false} HighestIs(table: seq<Entry>, table': seq<Entry>, k: nat, ip: Ip)
    requires k < |table| == |table'| && Hit(table[k], ip)
    requires forall j :: k <= j < |table| ==> table'[j] == table[j]
    ensures Lookup(table', ip) == Lookup(table, ip)
    decreases |table|
  {
    var n := |table| - 1;
    if !Hit(table[n], ip) {
      HighestIs(table[..n], table'[..n], k, ip);
    }
  }

  lemma {:induction false} LookupAt(table: seq<Entry>, k: nat, ip: Ip)
    requires k < |table| && Hit(table[k], ip) && forall j :: k < j < |table| ==> !Hit(table[j], ip)
    ensures Lookup(table, ip) == Some(table[k])
    decreases |table|
  {
    var n := |table| - 1;
    if k < n {
      LookupAt(table[..n], k, ip);
    }
  }
}
