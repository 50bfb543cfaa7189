// The PostgreSQL key store as an object: the two tables are fields that the
// transactional methods update in place, the listeners a sequence that
// Subscribe extends and Notify walks. A transaction takes a snapshot of both
// tables when it begins and puts it back when it rolls back, so every
// transaction is all-or-nothing. Each method's new state is tied to the
// matching function of the Tables module, where its properties are proved.
module Storage {
  import opened HkpTypes
  import Hex
  import Tables
  import KeyRead
  import Keywords
  import Queries

  /** A subscribed callback; `rejects` says for which changes it returns an
      error (Notify ignores the answer). */
  datatype Listener = Listener(name: string, rejects: KeyChange -> bool)

  /** One call of a listener: which one, in subscription order, and with what. */
  datatype Delivery = Delivery(listener: nat, change: KeyChange)

  /** hkpstorage.InsertError: the keys that were duplicates and the errors. */
  datatype InsertError = InsertError(duplicates: seq<PrimaryKey>, errors: seq<Error>)

  /** The calls Notify makes for one change, in subscription order. */
  function Deliveries(n: nat, change: KeyChange): (d: seq<Delivery>)
    ensures |d| == n && forall i :: 0 <= i < n ==> d[i] == Delivery(i, change)
  {
    seq(n, i requires 0 <= i < n => Delivery(i, change))
  }

  /** The calls Notify makes for each change of a sequence, one after another. */
  function DeliveriesAll(n: nat, changes: seq<KeyChange>): seq<Delivery> {
    if changes == [] then [] else Deliveries(n, changes[0]) + DeliveriesAll(n, changes[1..])
  }

  lemma {:induction false} DeliveriesAllAppend(n: nat, a: seq<KeyChange>, b: seq<KeyChange>)
    ensures DeliveriesAll(n, a + b) == DeliveriesAll(n, a) + DeliveriesAll(n, b)
  {
    if a == [] {
      assert a + b == b;
    } else {
      assert (a + b)[0] == a[0] && (a + b)[1..] == a[1..] + b;
      DeliveriesAllAppend(n, a[1..], b);
    }
  }

  class Store {
    var keys: map<string, Tables.KeyRow>
    var subkeys: map<string, string>
    var listeners: seq<Listener>
    /** Every change passed to Notify, in order. */
    ghost var log: seq<KeyChange>
    /** Every listener call Notify made, in order. */
    ghost var delivered: seq<Delivery>

    function State(): Tables.Tables
      reads this
    {
      Tables.Tables(keys, subkeys)
    }

    /** The schema's constraints: md5 is unique, subkeys reference keys. */
    predicate Valid()
      reads this
    {
      Tables.Valid(State())
    }

    /** New: empty tables and no listeners. */
    constructor ()
      ensures State() == Tables.Tables(map[], map[]) && Valid()
      ensures listeners == [] && log == [] && delivered == []
    {
      keys := map[];
      subkeys := map[];
      listeners := [];
      log := [];
      delivered := [];
    }

    // -------------------------------------------------------------------------
    // Notification hub

    method Subscribe(f: Listener)
      modifies this`listeners
      ensures listeners == old(listeners) + [f]
    {
      listeners := listeners + [f];
    }

    /** Calls every listener in subscription order, ignores what they return
        and always succeeds. */
    method Notify(change: KeyChange) returns (err: Option<Error>)
      modifies this`log, this`delivered
      ensures err == None
      ensures log == old(log) + [change]
      ensures delivered == old(delivered) + Deliveries(|listeners|, change)
    {
      var i := 0;
      while i < |listeners|
        invariant 0 <= i <= |listeners|
        invariant delivered == old(delivered) + Deliveries(i, change)
        invariant log == old(log)
      {
        var rejected := listeners[i].rejects(change);
        delivered := delivered + [Delivery(i, change)];
        i := i + 1;
      }
      log := log + [change];
      return None;
    }

    // -------------------------------------------------------------------------
    // Transactions

    /** Put back the tables as they were when the transaction began. */
    method Rollback(snapshot: Tables.Tables)
      modifies this`keys, this`subkeys
      ensures State() == snapshot
    {
      keys := snapshot.keys;
      subkeys := snapshot.subkeys;
    }

    /** The subkey statements of insertKeyTx and Update: INSERT ... WHERE NOT
        EXISTS for each rsubfp in order, counting the rows inserted. A row
        that would be inserted for a key that has no key row violates the
        foreign key of the subkeys table. */
    method InsertSubkeyRows(rfp: string, subs: seq<string>) returns (r: Result<nat>)
      modifies this`subkeys
      ensures r.Err? <==> rfp !in keys && exists i :: 0 <= i < |subs| && subs[i] !in old(subkeys)
      ensures r.Err? ==> r.error == ErrForeignKey(rfp)
      ensures r.Ok? ==> subkeys == Tables.InsertSubkeys(old(subkeys), rfp, subs) &&
                        |subkeys| == |old(subkeys)| + r.value
    {
      var rows := subkeys;
      var inserted := 0;
      var i := 0;
      while i < |subs|
        invariant 0 <= i <= |subs|
        invariant subkeys == old(subkeys)
        invariant Tables.InsertSubkeys(rows, rfp, subs[i..]) == Tables.InsertSubkeys(subkeys, rfp, subs)
        invariant |rows| == |subkeys| + inserted
        invariant rfp !in keys ==> rows == subkeys && forall j :: 0 <= j < i ==> subs[j] in subkeys
      {
        Tables.InsertSubkeysStep(rows, rfp, subs, i);
        if subs[i] !in rows {
          if rfp !in keys {
            return Err(ErrForeignKey(rfp));
          }
          rows := rows[subs[i] := rfp];
          inserted := inserted + 1;
        }
        i := i + 1;
      }
      assert subs[i..] == [];
      subkeys := rows;
      return Ok(inserted);
    }

    /** insertKeyTx: the conditional key insert, then one conditional insert
        per subkey; the duplicate flag says that no statement inserted a row.
        The md5 constraint can only fail on the first statement, so a failed
        call has changed nothing. */
    method InsertKeyTx(key: PrimaryKey, now: Time) returns (r: Result<bool>)
      requires Valid()
      modifies this`keys, this`subkeys
      ensures var spec := Tables.InsertKeyTx(old(State()), key, now);
        (r.Err? <==> spec.Err?) &&
        (r.Err? ==> r.error == spec.error && State() == old(State())) &&
        (r.Ok? ==> r.value == spec.value.value && State() == spec.value.after)
      ensures Valid()
    {
      var rfp := key.rfingerprint;
      var keysInserted := 0;
      if rfp !in keys {
        if Tables.MD5Taken(keys, key.md5, rfp) {
          return Err(ErrUniqueMD5(key.md5));
        }
        keys := keys[rfp := Tables.NewRow(key, now)];
        keysInserted := 1;
      }
      assert keys == Tables.KeysAfterInsert(old(keys), key, now);
      assert |keys| == |old(keys)| + keysInserted;
      var rowsAffected := InsertSubkeyRows(rfp, Tables.SubFps(key));
      Tables.InsertKeyTxCounts(old(State()), key, now, keysInserted, rowsAffected.value);
      Tables.InsertKeyTxValid(old(State()), key, now);
      return Ok(keysInserted + rowsAffected.value == 0);
    }

    /** insertKey: insertKeyTx in a transaction of its own. */
    method InsertKey(key: PrimaryKey, now: Time) returns (r: Result<bool>)
      requires Valid()
      modifies this`keys, this`subkeys
      ensures var spec := Tables.InsertKeyTx(old(State()), key, now);
        (r.Err? <==> spec.Err?) &&
        (r.Err? ==> r.error == spec.error && State() == old(State())) &&
        (r.Ok? ==> r.value == spec.value.value && State() == spec.value.after)
      ensures Valid()
    {
      var snapshot := State();
      r := InsertKeyTx(key, now);
      if r.Err? {
        Rollback(snapshot);
      }
    }

    /** Notify as Insert's loop uses it: the change joins those already
        announced, in the log and in every listener's deliveries. */
    method NotifyAdded(change: KeyChange, ghost added: seq<KeyChange>, ghost log0: seq<KeyChange>, ghost delivered0: seq<Delivery>)
      requires log == log0 + added && delivered == delivered0 + DeliveriesAll(|listeners|, added)
      modifies this`log, this`delivered
      ensures log == log0 + (added + [change])
      ensures delivered == delivered0 + DeliveriesAll(|listeners|, added + [change])
    {
      var _ := Notify(change);
      AppendAssoc(log0, added, [change]);
      DeliveriesAllAppend(|listeners|, added, [change]);
      assert DeliveriesAll(|listeners|, [change]) == Deliveries(|listeners|, change) + [];
      AppendAssoc(delivered0, DeliveriesAll(|listeners|, added), Deliveries(|listeners|, change));
    }

    /** One turn of Insert's loop for ks[i]: insertKey, then the error, the
        duplicate, or the KeyAdded notification. */
    method InsertTurn(ks: seq<PrimaryKey>, i: nat, now: Time, ghost start: Tables.Tables, ghost added: seq<KeyChange>,
                      duplicates: seq<PrimaryKey>, errors: seq<Error>,
                      ghost log0: seq<KeyChange>, ghost delivered0: seq<Delivery>)
      returns (stored: bool, ghost added': seq<KeyChange>, duplicates': seq<PrimaryKey>, errors': seq<Error>)
      requires i < |ks| && Valid()
      requires Tables.PrefixIs(start, ks, i, now, Tables.Batch(State(), added, duplicates, errors, false))
      requires log == log0 + added && delivered == delivered0 + DeliveriesAll(|listeners|, added)
      modifies this`keys, this`subkeys, this`log, this`delivered
      ensures Tables.PrefixIs(start, ks, i + 1, now, Tables.Batch(State(), added', duplicates', errors', false))
      ensures added' == if stored then added + [KeyAdded(ks[i].keyID, ks[i].md5)] else added
      ensures log == log0 + added' && delivered == delivered0 + DeliveriesAll(|listeners|, added')
      ensures Valid()
    {
      var key := ks[i];
      var r := InsertKey(key, now);
      stored, duplicates', errors' := false, duplicates, errors;
      added' := added;
      if r.Err? {
        errors' := errors + [r.error];
      } else if r.value {
        duplicates' := duplicates + [key];
      } else {
        var change := KeyAdded(key.keyID, key.md5);
        NotifyAdded(change, added, log0, delivered0);
        stored := true;
        added' := added + [change];
      }
    }

    /** The end of Insert: the bail-out error when keys were left over, and
        an InsertError exactly when there were duplicates or errors. */
    static method InsertOutcome(ks: seq<PrimaryKey>, i: nat, duplicates: seq<PrimaryKey>, errors: seq<Error>)
      returns (err: Option<InsertError>)
      requires i <= |ks|
      ensures var errors' := if i < |ks| then errors + [ErrTooManyInsertErrors(|errors|, Tables.MaxInsertErrors)] else errors;
        (err.None? <==> duplicates == [] && errors' == []) &&
        (err.Some? ==> err.value == InsertError(duplicates, errors'))
    {
      if i < |ks| {
        var errors' := errors + [ErrTooManyInsertErrors(|errors|, Tables.MaxInsertErrors)];
        return Some(InsertError(duplicates, errors'));
      } else if |duplicates| > 0 || |errors| > 0 {
        return Some(InsertError(duplicates, errors));
      }
      return None;
    }

    /** Insert's loop: one turn per key while at most 100 errors have been
        collected. It stops at i with the key rows, the announcements, the
        duplicates and the errors of the first i keys. */
    method InsertRun(ks: seq<PrimaryKey>, now: Time)
      returns (n: nat, i: nat, duplicates: seq<PrimaryKey>, errors: seq<Error>, ghost added: seq<KeyChange>)
      requires Valid()
      modifies this`keys, this`subkeys, this`log, this`delivered
      ensures i <= |ks| && (i == |ks| || |errors| > Tables.MaxInsertErrors)
      ensures Tables.PrefixIs(old(State()), ks, i, now, Tables.Batch(State(), added, duplicates, errors, false))
      ensures i == 0 || |Tables.Prefix(old(State()), ks, i - 1, now).errors| <= Tables.MaxInsertErrors
      ensures n == |added| && log == old(log) + added &&
              delivered == old(delivered) + DeliveriesAll(|listeners|, added)
      ensures Valid()
    {
      ghost var start := State();
      added := [];
      duplicates := [];
      errors := [];
      n := 0;
      i := 0;
      while i < |ks| && |errors| <= Tables.MaxInsertErrors
        invariant 0 <= i <= |ks|
        invariant n == |added| && Valid()
        invariant log == old(log) + added
        invariant delivered == old(delivered) + DeliveriesAll(|listeners|, added)
        invariant Tables.PrefixIs(start, ks, i, now, Tables.Batch(State(), added, duplicates, errors, false))
        invariant i == 0 || |Tables.Prefix(start, ks, i - 1, now).errors| <= Tables.MaxInsertErrors
      {
        var stored;
        stored, added, duplicates, errors := InsertTurn(ks, i, now, start, added, duplicates, errors, old(log), old(delivered));
        if stored {
          n := n + 1;
        }
        i := i + 1;
      }
    }

    /** Insert: one insertKey per key, notifying KeyAdded for each key that
        was stored and was not a duplicate; the loop gives up once more than
        100 errors have been collected. The error is absent exactly when there
        were neither duplicates nor errors. */
    method Insert(ks: seq<PrimaryKey>, now: Time) returns (n: nat, err: Option<InsertError>)
      requires Valid()
      modifies this`keys, this`subkeys, this`log, this`delivered
      ensures var b := Tables.InsertBatch(old(State()), ks, now, 0);
        State() == b.tables && n == |b.added| &&
        log == old(log) + b.added &&
        delivered == old(delivered) + DeliveriesAll(|listeners|, b.added) &&
        (err.None? <==> b.duplicates == [] && b.errors == []) &&
        (err.Some? ==> err.value == InsertError(b.duplicates, b.errors))
      ensures Valid()
    {
      ghost var start := State();
      var i, duplicates, errors;
      ghost var added;
      n, i, duplicates, errors, added := InsertRun(ks, now);
      Tables.PrefixLoop(start, ks, i, now);
      Tables.InsertLoopDone(start, ks, now, State(), i, added, duplicates, errors);
      Tables.InsertBatchValid(start, ks, now, 0);
      err := InsertOutcome(ks, i, duplicates, errors);
    }

    /** deleteTx: the subkey rows of the key go first, then the key row,
        whose md5 the DELETE returns; a missing key row is ErrKeyNotFound
        and leaves the deleted subkey rows to the rollback. */
    method DeleteTx(fp: string) returns (r: Result<string>)
      requires Valid()
      modifies this`keys, this`subkeys
      ensures var spec := Tables.DeleteTx(old(State()), fp);
        (r.Err? <==> spec.Err?) &&
        (r.Err? ==> r.error == spec.error) &&
        (r.Ok? ==> r.value == spec.value.value && State() == spec.value.after)
      ensures Valid()
    {
      var rfp := Reverse(fp);
      subkeys := Tables.DropSubkeysOf(subkeys, rfp);
      if rfp !in keys {
        return Err(ErrKeyNotFound);
      }
      var md5 := keys[rfp].md5;
      keys := keys - {rfp};
      Tables.DeleteTxValid(old(State()), fp);
      return Ok(md5);
    }

    /** Delete: deleteTx in a transaction of its own; no notification. */
    method Delete(fp: string) returns (r: Result<string>)
      requires Valid()
      modifies this`keys, this`subkeys
      ensures var spec := Tables.DeleteTx(old(State()), fp);
        (r.Err? <==> spec.Err?) &&
        (r.Err? ==> r.error == spec.error && State() == old(State())) &&
        (r.Ok? ==> r.value == spec.value.value && State() == spec.value.after)
      ensures Valid()
    {
      var snapshot := State();
      r := DeleteTx(fp);
      if r.Err? {
        Rollback(snapshot);
      }
    }

    /** Replace: deleteTx of the key's fingerprint, then insertKeyTx, in one
        transaction; returns the md5 of the deleted row; no notification. */
    method Replace(key: PrimaryKey, now: Time) returns (r: Result<string>)
      requires Valid()
      modifies this`keys, this`subkeys
      ensures var spec := Tables.ReplaceTx(old(State()), key, now);
        (r.Err? <==> spec.Err?) &&
        (r.Err? ==> r.error == spec.error && State() == old(State())) &&
        (r.Ok? ==> r.value == spec.value.value && State() == spec.value.after)
      ensures Valid()
    {
      var snapshot := State();
      var d := DeleteTx(Tables.Fingerprint(key));
      if d.Err? {
        Rollback(snapshot);
        return Err(d.error);
      }
      var ins := InsertKeyTx(key, now);
      if ins.Err? {
        Rollback(snapshot);
        return Err(ins.error);
      }
      return Ok(d.value);
    }

    /** Update: the UPDATE of the key row (no row matches when the key is not
        stored), the subkey inserts, then KeyReplaced is announced before the
        transaction commits. A failed statement rolls back and announces
        nothing. */
    method Update(key: PrimaryKey, lastID: string, lastMD5: string, now: Time) returns (err: Option<Error>)
      requires Valid()
      modifies this`keys, this`subkeys, this`log, this`delivered
      ensures var spec := Tables.UpdateTx(old(State()), key, now);
        var change := KeyReplaced(lastID, lastMD5, key.keyID, key.md5);
        (err.Some? <==> spec.Err?) &&
        (err.Some? ==> err.value == spec.error && State() == old(State()) &&
                       log == old(log) && delivered == old(delivered)) &&
        (err.None? ==> State() == spec.value && log == old(log) + [change] &&
                       delivered == old(delivered) + Deliveries(|listeners|, change))
      ensures Valid()
    {
      var snapshot := State();
      var rfp := key.rfingerprint;
      if rfp in keys {
        if Tables.MD5Taken(keys, key.md5, rfp) {
          return Some(ErrUniqueMD5(key.md5));
        }
        keys := keys[rfp := Tables.UpdatedRow(keys[rfp], key, now)];
      }
      assert forall i :: 0 <= i < |key.subKeys| ==> Tables.SubFps(key)[i] == key.subKeys[i].rfingerprint;
      var rows := InsertSubkeyRows(rfp, Tables.SubFps(key));
      if rows.Err? {
        Rollback(snapshot);
        return Some(rows.error);
      }
      Tables.UpdateTxValid(old(State()), key, now);
      var _ := Notify(KeyReplaced(lastID, lastMD5, key.keyID, key.md5));
      return None;
    }

    // -------------------------------------------------------------------------
    // Queries

    /** MatchMD5: the identifiers are checked and lower-cased, and the rows
        whose md5 is among them come back in the database's order. An empty
        list makes the statement "... IN ()", which the SQL parser rejects. */
    method MatchMD5(md5s: seq<string>) returns (r: Result<seq<string>>)
      ensures var v := Hex.ValidatedLower(md5s);
        (v.Err? ==> r == Err(v.error)) &&
        (v.Ok? && md5s == [] ==> r == Err(ErrEmptyInList)) &&
        (v.Ok? && md5s != [] ==> r.Ok? && Queries.Enumerates(r.value, Queries.RowsWithMD5(keys, v.value)))
    {
      var inList := Hex.BuildInList(md5s);
      if inList.Err? {
        return Err(inList.error);
      }
      if |inList.value| == 0 {
        return Err(ErrEmptyInList);
      }
      var md5In := inList.value;
      var rows := set x | x in keys && keys[x].md5 in md5In;
      var result := Queries.Enumerate(rows, |rows|);
      return Ok(result);
    }

    /** resolveSubKeys: for each identifier, lower-cased, the owner of some
        subkey whose rsubfp starts with it, or "" when none does. */
    method ResolveSubKeys(ids: seq<string>) returns (r: seq<string>)
      ensures |r| == |ids|
      ensures forall i :: 0 <= i < |ids| ==> Queries.SubkeyAnswer(subkeys, Lower(ids[i]), r[i])
    {
      r := [];
      for i := 0 to |ids|
        invariant |r| == i
        invariant forall j :: 0 <= j < i ==> Queries.SubkeyAnswer(subkeys, Lower(ids[j]), r[j])
      {
        var id := Lower(ids[i]);
        var rfp := "";
        if exists s :: s in subkeys && IsPrefix(id, s) {
          var s :| s in subkeys && IsPrefix(id, s);
          rfp := subkeys[s];
        }
        r := r + [rfp];
      }
    }

    /** Resolve: for each identifier, lower-cased, some key row whose
        rfingerprint starts with it, or "" when none does; the identifiers
        that found no key row go, in order, to resolveSubKeys, whose answers
        follow. */
    method Resolve(ids: seq<string>) returns (r: seq<string>)
      ensures Queries.Resolution(State(), ids, r)
    {
      var result: seq<string> := [];
      var subKeyIDs: seq<string> := [];
      for i := 0 to |ids|
        invariant |result| == i
        invariant subKeyIDs == Queries.KeyMisses(keys, ids[..i])
        invariant forall j :: 0 <= j < i ==> Queries.KeyAnswer(keys, Lower(ids[j]), result[j])
      {
        var id := Lower(ids[i]);
        var rfp := "";
        if exists k :: k in keys && IsPrefix(id, k) {
          rfp :| rfp in keys && IsPrefix(id, rfp);
        } else {
          subKeyIDs := subKeyIDs + [id];
        }
        result := result + [rfp];
        assert ids[..i + 1][..i] == ids[..i];
      }
      assert ids[..|ids|] == ids;
      if |subKeyIDs| > 0 {
        var sub := ResolveSubKeys(subKeyIDs);
        Queries.KeyMissesSpec(keys, ids);
        result := result + sub;
      }
      return result;
    }

    /** MatchKeyword: one query per term, each bringing at most 100 matching
        rows in the database's order, the blocks one after another. */
    method MatchKeyword(search: seq<string>, matches: (string, string) -> bool)
      returns (r: seq<string>, ghost blocks: seq<seq<string>>)
      ensures Queries.KeywordAnswer(keys, matches, search, blocks)
      ensures r == Keywords.ConcatAll(blocks)
      ensures forall x :: x in r ==> x in keys && exists i :: 0 <= i < |search| && matches(keys[x].keywords, search[i])
    {
      r := [];
      blocks := [];
      for i := 0 to |search|
        invariant |blocks| == i
        invariant forall j :: 0 <= j < i ==> Queries.TermAnswer(keys, matches, search[j], blocks[j])
        invariant r == Keywords.ConcatAll(blocks)
      {
        var term := search[i];
        var rows := set x | x in keys && matches(keys[x].keywords, term);
        var block := Queries.Enumerate(rows, Queries.QueryLimit);
        assert (blocks + [block])[..i] == blocks;
        blocks := blocks + [block];
        r := r + block;
      }
      forall x | x in r
        ensures x in keys && exists i :: 0 <= i < |search| && matches(keys[x].keywords, search[i])
      {
        Queries.KeywordAnswerSound(keys, matches, search, blocks, x);
      }
    }

    /** ModifiedSince: the rows modified after `since`, newest first, at
        most 100 of them; each turn takes a newest row of those left. */
    method ModifiedSince(since: Time) returns (r: seq<string>)
      ensures Queries.NewestFirst(keys, since, r)
    {
      var rest := set x | x in keys && keys[x].mtime > since;
      r := [];
      while rest != {} && |r| < Queries.QueryLimit
        invariant Queries.NewestSoFar(keys, since, r, rest) && |r| <= Queries.QueryLimit
        decreases |rest|
      {
        Queries.NewestExists(keys, rest);
        var x :| x in rest && forall y :: y in rest ==> keys[y].mtime <= keys[x].mtime;
        Queries.NewestStep(keys, since, r, rest, x);
        r := r + [x];
        rest := rest - {x};
      }
      Queries.NewestDone(keys, since, r, rest);
    }

    /** The documents of the selected rows, each through readOneKey, in the
        order of `order`; the first one that does not read is the error. */
    method ReadDocs(order: seq<string>, read: string -> Result<seq<PrimaryKey>>)
      returns (r: Result<seq<Option<PrimaryKey>>>)
      requires Queries.InKeys(keys, order)
      ensures r == Queries.ReadDocs(keys, order, read)
    {
      var result: seq<Option<PrimaryKey>> := [];
      assert order[0..] == order;
      Queries.PrependEmpty(result, Queries.ReadDocs(keys, order, read));
      for i := 0 to |order|
        invariant Queries.InKeys(keys, order[i..])
        invariant Queries.ReadDocs(keys, order, read) == Queries.Prepend(result, Queries.ReadDocs(keys, order[i..], read))
      {
        Queries.ReadDocsFrom(keys, order, i, read);
        var key := Queries.ReadDoc(keys[order[i]].doc, read);
        if key.Err? {
          return Err(key.error);
        }
        Queries.PrependPrepend(result, [key.value], Queries.ReadDocs(keys, order[i + 1..], read));
        result := result + [key.value];
      }
      assert order[|order|..] == [];
      Queries.PrependEmpty(result, Ok([]));
      return Ok(result);
    }

    /** FetchKeyrings' loop: each row is scanned into the destinations,
        its bufStr unmarshalled and its document read, in the order of
        `order`; the first row that fails is the error. */
    method ReadKeyrings(order: seq<string>, dests: seq<Queries.Dest>, read: string -> Result<seq<PrimaryKey>>)
      returns (r: Result<seq<Queries.Keyring>>)
      requires Queries.InKeys(keys, order)
      ensures r == Queries.ReadKeyrings(keys, order, dests, read)
    {
      var result: seq<Queries.Keyring> := [];
      assert order[0..] == order;
      Queries.PrependEmpty(result, Queries.ReadKeyrings(keys, order, dests, read));
      for i := 0 to |order|
        invariant Queries.InKeys(keys, order[i..])
        invariant Queries.ReadKeyrings(keys, order, dests, read) ==
                  Queries.Prepend(result, Queries.ReadKeyrings(keys, order[i..], dests, read))
      {
        Queries.ReadKeyringsFrom(keys, order, i, dests, read);
        var kr := Queries.ReadKeyring(keys[order[i]], dests, read);
        if kr.Err? {
          return Err(kr.error);
        }
        Queries.PrependPrepend(result, [kr.value], Queries.ReadKeyrings(keys, order[i + 1..], dests, read));
        result := result + [kr.value];
      }
      assert order[|order|..] == [];
      Queries.PrependEmpty(result, Ok([]));
      return Ok(result);
    }

    /** FetchKeys: nothing for an empty list; otherwise the identifiers are
        checked and lower-cased, and the documents of the selected rows are
        read in the database's order. */
    method FetchKeys(rfps: seq<string>, read: string -> Result<seq<PrimaryKey>>)
      returns (r: Result<seq<Option<PrimaryKey>>>, ghost order: seq<string>)
      ensures rfps == [] ==> r == Ok([])
      ensures var v := Hex.ValidatedLower(rfps);
        (rfps != [] && v.Err? ==> r == Err(v.error)) &&
        (rfps != [] && v.Ok? ==> Queries.Enumerates(order, Queries.RowsWithRfp(keys, v.value)) &&
                                 Queries.InKeys(keys, order) && r == Queries.ReadDocs(keys, order, read))
      ensures var v := Hex.ValidatedLower(rfps);
        rfps != [] && v.Ok? && r.Ok? ==> |r.value| == |Queries.RowsWithRfp(keys, v.value)|
    {
      order := [];
      if |rfps| == 0 {
        return Ok([]), order;
      }
      var inList := Hex.BuildInList(rfps);
      if inList.Err? {
        return Err(inList.error), order;
      }
      var rfpIn := inList.value;
      var rows := set x | x in keys && x in rfpIn;
      var rowList := Queries.Enumerate(rows, |rows|);
      assert Queries.InKeys(keys, rowList) by {
        forall i | 0 <= i < |rowList| ensures rowList[i] in keys {
          assert rowList[i] in rows;
        }
      }
      order := rowList;
      r := ReadDocs(rowList, read);
      Queries.EnumeratesCard(rowList, rows);
      Queries.ReadDocsSpec(keys, rowList, read);
    }

    /** FetchKeyrings' loop with the scan destinations given: each row is
        scanned, its bufStr unmarshalled and its document read. */
    method ScanKeyrings(rfps: seq<string>, dests: seq<Queries.Dest>, read: string -> Result<seq<PrimaryKey>>)
      returns (r: Result<seq<Queries.Keyring>>, ghost order: seq<string>)
      ensures var v := Hex.ValidatedLower(rfps);
        (v.Err? ==> r == Err(v.error)) &&
        (v.Ok? && rfps == [] ==> r == Err(ErrEmptyInList)) &&
        (v.Ok? && rfps != [] ==> Queries.Enumerates(order, Queries.RowsWithRfp(keys, v.value)) &&
                                 Queries.InKeys(keys, order) && r == Queries.ReadKeyrings(keys, order, dests, read))
    {
      order := [];
      var inList := Hex.BuildInList(rfps);
      if inList.Err? {
        return Err(inList.error), order;
      }
      if |inList.value| == 0 {
        return Err(ErrEmptyInList), order;
      }
      var rfpIn := inList.value;
      var rows := set x | x in keys && x in rfpIn;
      var rowList := Queries.Enumerate(rows, |rows|);
      assert Queries.InKeys(keys, rowList) by {
        forall i | 0 <= i < |rowList| ensures rowList[i] in keys {
          assert rowList[i] in rows;
        }
      }
      order := rowList;
      r := ReadKeyrings(rowList, dests, read);
    }

    /** FetchKeyrings as written: Scan(&bufStr, &kr.CTime, &kr.MTime) on the
        columns (ctime, mtime, doc). Once a row is selected, the call fails,
        since the doc column cannot be stored in kr.MTime. */
    method FetchKeyringsAsWritten(rfps: seq<string>, read: string -> Result<seq<PrimaryKey>>)
      returns (r: Result<seq<Queries.Keyring>>)
      ensures var v := Hex.ValidatedLower(rfps);
        (v.Err? ==> r == Err(v.error)) &&
        (v.Ok? && rfps == [] ==> r == Err(ErrEmptyInList)) &&
        (v.Ok? && rfps != [] && Queries.RowsWithRfp(keys, v.value) == {} ==> r == Ok([])) &&
        (v.Ok? && rfps != [] && Queries.RowsWithRfp(keys, v.value) != {} ==> r == Err(ErrUnsupportedScan(2)))
    {
      ghost var order;
      r, order := ScanKeyrings(rfps, Queries.AsWrittenDests, read);
      var v := Hex.ValidatedLower(rfps);
      if v.Ok? && rfps != [] {
        if order != [] {
          assert order[0] in Queries.RowsWithRfp(keys, v.value);
          Queries.AsWrittenAlwaysFails(keys, order, read);
        } else {
          assert forall x :: x !in Queries.RowsWithRfp(keys, v.value);
        }
      }
    }

    /** FetchKeyrings with the destinations in column order: each selected
        row's key, as FetchKeys reads it, with the row's ctime and mtime. */
    method FetchKeyrings(rfps: seq<string>, read: string -> Result<seq<PrimaryKey>>)
      returns (r: Result<seq<Queries.Keyring>>, ghost order: seq<string>)
      ensures var v := Hex.ValidatedLower(rfps);
        (v.Err? ==> r == Err(v.error)) &&
        (v.Ok? && rfps == [] ==> r == Err(ErrEmptyInList)) &&
        (v.Ok? && rfps != [] ==> Queries.Enumerates(order, Queries.RowsWithRfp(keys, v.value)) &&
                                 Queries.InKeys(keys, order) &&
                                 r == Queries.ReadKeyrings(keys, order, Queries.ColumnOrderDests, read))
      ensures var v := Hex.ValidatedLower(rfps);
        (v.Ok? && rfps != [] && r.Ok? ==> |r.value| == |Queries.RowsWithRfp(keys, v.value)|) &&
        (v.Ok? && rfps != [] && Queries.RowsWithRfp(keys, v.value) == {} ==> r == Ok([]))
    {
      r, order := ScanKeyrings(rfps, Queries.ColumnOrderDests, read);
      var v := Hex.ValidatedLower(rfps);
      if v.Ok? && rfps != [] {
        Queries.EnumeratesCard(order, Queries.RowsWithRfp(keys, v.value));
        Queries.KeyringsAgreeWithDocs(keys, order, read);
      }
    }

    /** RenotifyAll: KeyAdded with the row's md5 and no ID, for every key row
        in the database's order, through Notify; the answers are ignored. */
    method RenotifyAll() returns (err: Option<Error>, ghost order: seq<string>)
      modifies this`log, this`delivered
      ensures err == None && Queries.Enumerates(order, keys.Keys) && Queries.InKeys(keys, order)
      ensures log == old(log) + Queries.Renotifications(keys, order)
      ensures delivered == old(delivered) + DeliveriesAll(|listeners|, Queries.Renotifications(keys, order))
    {
      var rows := Queries.Enumerate(keys.Keys, |keys.Keys|);
      order := rows;
      ghost var sent: seq<KeyChange> := [];
      for i := 0 to |rows|
        invariant Queries.InKeys(keys, rows[..i]) && sent == Queries.Renotifications(keys, rows[..i])
        invariant log == old(log) + sent && delivered == old(delivered) + DeliveriesAll(|listeners|, sent)
      {
        var change := KeyAdded("", keys[rows[i]].md5);
        NotifyAdded(change, sent, old(log), old(delivered));
        sent := sent + [change];
      }
      assert rows[..|rows|] == rows;
      return None, order;
    }
  }
}
