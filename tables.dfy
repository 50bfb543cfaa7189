// The two tables of the key store as values, and what each of the store's
// transactions does to them when it commits. The Storage module runs the same
// steps in place; the functions here are the specification it is proved
// against, and the lemmas state what the transactions promise.
module Tables {
  import opened HkpTypes
  import Keywords

  const MaxInsertErrors: nat := 100

  /** A row of the keys table, keyed by rfingerprint. */
  datatype KeyRow = KeyRow(ctime: Time, mtime: Time, md5: string, doc: Doc, keywords: string)

  /** keys: rfingerprint -> row; subkeys: rsubfp -> rfingerprint of the owner. */
  datatype Tables = Tables(keys: map<string, KeyRow>, subkeys: map<string, string>)

  /** The state a transaction commits, with the value it returns. */
  datatype Committed<+T> = Committed(after: Tables, value: T)

  /** keys.md5 is UNIQUE (rfingerprint, the map key, is the primary key). */
  predicate MD5Unique(keys: map<string, KeyRow>) {
    forall r1, r2 :: r1 in keys && r2 in keys && r1 != r2 ==> keys[r1].md5 != keys[r2].md5
  }

  /** subkeys.rfingerprint REFERENCES keys(rfingerprint). */
  predicate SubkeysReferenceKeys(t: Tables) {
    forall s :: s in t.subkeys ==> t.subkeys[s] in t.keys
  }

  predicate Valid(t: Tables) {
    MD5Unique(t.keys) && SubkeysReferenceKeys(t)
  }

  /** Some row other than `except` already holds this md5. */
  predicate MD5Taken(keys: map<string, KeyRow>, md5: string, except: string) {
    exists r :: r in keys && r != except && keys[r].md5 == md5
  }

  /** The rsubfp of each subkey, in the key's order. */
  function SubFps(key: PrimaryKey): (l: seq<string>)
    ensures |l| == |key.subKeys|
  {
    seq(|key.subKeys|, i requires 0 <= i < |key.subKeys| => key.subKeys[i].rfingerprint)
  }

  /** The row insertKeyTx writes for a key at time now. */
  function NewRow(key: PrimaryKey, now: Time): KeyRow {
    KeyRow(now, now, key.md5, key.doc, Keywords.KeywordsTSVector(key.userIDs))
  }

  // ---------------------------------------------------------------------------
  // Subkey rows: INSERT ... WHERE NOT EXISTS, once per subkey, in order.

  /** One conditional insert: a row (rsubfp, rfp) unless rsubfp has one. */
  function InsertSubkey(subs: map<string, string>, rfp: string, rsubfp: string): map<string, string> {
    if rsubfp in subs then subs else subs[rsubfp := rfp]
  }

  /** The insert adds the row (rsubfp, rfp) exactly when rsubfp has none and
      keeps every other row. */
  lemma InsertSubkeySpec(subs: map<string, string>, rfp: string, rsubfp: string)
    ensures var r := InsertSubkey(subs, rfp, rsubfp);
      r.Keys == subs.Keys + {rsubfp} &&
      (forall s :: s in subs ==> r[s] == subs[s]) &&
      (rsubfp !in subs ==> r[rsubfp] == rfp) &&
      |r| == |subs| + (if rsubfp in subs then 0 else 1)
  {
  }

  /** The conditional inserts for the subkeys in order. */
  function InsertSubkeys(subs: map<string, string>, rfp: string, rsubfps: seq<string>): map<string, string>
    decreases |rsubfps|
  {
    if rsubfps == [] then subs
    else InsertSubkeys(InsertSubkey(subs, rfp, rsubfps[0]), rfp, rsubfps[1..])
  }

  /** The inserts keep every existing row, give every listed subkey a row,
      and the rows they add point at rfp and belong to listed subkeys. */
  lemma {:induction false} InsertSubkeysSpec(subs: map<string, string>, rfp: string, rsubfps: seq<string>)
    ensures var r := InsertSubkeys(subs, rfp, rsubfps);
      (forall s :: s in subs ==> s in r && r[s] == subs[s]) &&
      (forall i :: 0 <= i < |rsubfps| ==> rsubfps[i] in r) &&
      (forall s :: s in r && s !in subs ==> r[s] == rfp && s in rsubfps) &&
      |subs| <= |r|
    decreases |rsubfps|
  {
    if rsubfps != [] {
      var rest := rsubfps[1..];
      var m := InsertSubkey(subs, rfp, rsubfps[0]);
      InsertSubkeySpec(subs, rfp, rsubfps[0]);
      InsertSubkeysSpec(m, rfp, rest);
      assert forall i :: 1 <= i < |rsubfps| ==> rsubfps[i] == rest[i - 1];
      assert forall s :: s in rest ==> s in rsubfps;
    }
  }

  /** The subkeys still to insert from position i on. */
  lemma InsertSubkeysStep(subs: map<string, string>, rfp: string, rsubfps: seq<string>, i: nat)
    requires i < |rsubfps|
    ensures InsertSubkeys(subs, rfp, rsubfps[i..]) ==
            InsertSubkeys(InsertSubkey(subs, rfp, rsubfps[i]), rfp, rsubfps[i + 1..])
  {
    assert rsubfps[i..][1..] == rsubfps[i + 1..];
  }

  lemma {:induction false} InsertSubkeysUnchanged(subs: map<string, string>, rfp: string, rsubfps: seq<string>)
    requires forall i :: 0 <= i < |rsubfps| ==> rsubfps[i] in subs
    ensures InsertSubkeys(subs, rfp, rsubfps) == subs
    decreases |rsubfps|
  {
    if rsubfps != [] {
      assert InsertSubkey(subs, rfp, rsubfps[0]) == subs;
      InsertSubkeysUnchanged(subs, rfp, rsubfps[1..]);
    }
  }

  // ---------------------------------------------------------------------------
  // insertKeyTx

  /** The result is Ok(Committed(after, isDuplicate)). */
  function KeysAfterInsert(keys: map<string, KeyRow>, key: PrimaryKey, now: Time): map<string, KeyRow> {
    if key.rfingerprint in keys then keys else keys[key.rfingerprint := NewRow(key, now)]
  }

  /** The conditional key insert adds the new row exactly when the
      rfingerprint has none and keeps every other row. */
  lemma KeysAfterInsertSpec(keys: map<string, KeyRow>, key: PrimaryKey, now: Time)
    ensures var r := KeysAfterInsert(keys, key, now);
      r.Keys == keys.Keys + {key.rfingerprint} &&
      (forall k :: k in keys ==> r[k] == keys[k]) &&
      (key.rfingerprint !in keys ==> r[key.rfingerprint] == NewRow(key, now)) &&
      |r| == |keys| + (if key.rfingerprint in keys then 0 else 1)
  {
  }

  /** The result is Ok(Committed(after, isDuplicate)); a duplicate is a call
      whose statements inserted no row, so that, as they never overwrite a
      row, the tables are as they were. */
  function InsertKeyTx(t: Tables, key: PrimaryKey, now: Time): Result<Committed<bool>> {
    if key.rfingerprint !in t.keys && MD5Taken(t.keys, key.md5, key.rfingerprint) then Err(ErrUniqueMD5(key.md5))
    else
      var a := Tables(KeysAfterInsert(t.keys, key, now), InsertSubkeys(t.subkeys, key.rfingerprint, SubFps(key)));
      Ok(Committed(a, a == t))
  }

  /** The only failure is the md5 UNIQUE constraint, met by a key that is not
      yet stored while another row holds its md5. */
  lemma InsertKeyTxErrorIff(t: Tables, key: PrimaryKey, now: Time)
    ensures InsertKeyTx(t, key, now).Err? <==>
      key.rfingerprint !in t.keys && exists r :: r in t.keys && t.keys[r].md5 == key.md5
    ensures InsertKeyTx(t, key, now).Err? ==> InsertKeyTx(t, key, now).error == ErrUniqueMD5(key.md5)
  {
  }

  /** insertKeyTx never overwrites: every existing key row and subkey row is
      kept as it was; the key row is added only when its rfingerprint is
      absent, and each subkey row only when its rsubfp is absent. */
  lemma InsertKeyTxNeverOverwrites(t: Tables, key: PrimaryKey, now: Time)
    requires InsertKeyTx(t, key, now).Ok?
    ensures var a := InsertKeyTx(t, key, now).value.after;
      (forall r :: r in t.keys ==> r in a.keys && a.keys[r] == t.keys[r]) &&
      (forall s :: s in t.subkeys ==> s in a.subkeys && a.subkeys[s] == t.subkeys[s])
  {
    KeysAfterInsertSpec(t.keys, key, now);
    InsertSubkeysSpec(t.subkeys, key.rfingerprint, SubFps(key));
  }

  /** After insertKeyTx the key and all its subkeys are stored: the key row
      is new (written at now) exactly when it was absent, and the new subkey
      rows point at the key. */
  lemma InsertKeyTxStores(t: Tables, key: PrimaryKey, now: Time)
    requires InsertKeyTx(t, key, now).Ok?
    ensures var a := InsertKeyTx(t, key, now).value.after;
      a.keys.Keys == t.keys.Keys + {key.rfingerprint} &&
      (key.rfingerprint !in t.keys ==> a.keys[key.rfingerprint] == NewRow(key, now)) &&
      (forall i :: 0 <= i < |key.subKeys| ==> key.subKeys[i].rfingerprint in a.subkeys) &&
      (forall s :: s in a.subkeys && s !in t.subkeys ==> a.subkeys[s] == key.rfingerprint)
  {
    KeysAfterInsertSpec(t.keys, key, now);
    InsertSubkeysSpec(t.subkeys, key.rfingerprint, SubFps(key));
    assert forall i :: 0 <= i < |key.subKeys| ==> SubFps(key)[i] == key.subKeys[i].rfingerprint;
  }

  lemma MapGrows<V>(m: map<string, V>, m': map<string, V>)
    requires m.Keys <= m'.Keys
    ensures |m| <= |m'|
    ensures |m| == |m'| <==> m.Keys == m'.Keys
  {
    var d := m'.Keys - m.Keys;
    assert m'.Keys == m.Keys + d;
    assert m.Keys * d == {};
    assert |m'.Keys| == |m.Keys| + |d|;
    if |d| == 0 {
      assert d == {};
    }
  }

  /** A duplicate is reported exactly when the key and every one of its
      subkeys were already stored. */
  lemma InsertKeyTxDuplicateIff(t: Tables, key: PrimaryKey, now: Time)
    requires InsertKeyTx(t, key, now).Ok?
    ensures var c := InsertKeyTx(t, key, now).value;
      c.value <==> key.rfingerprint in t.keys &&
                   forall i :: 0 <= i < |key.subKeys| ==> key.subKeys[i].rfingerprint in t.subkeys
  {
    var c := InsertKeyTx(t, key, now).value;
    InsertKeyTxStores(t, key, now);
    if key.rfingerprint in t.keys && forall i :: 0 <= i < |key.subKeys| ==> key.subKeys[i].rfingerprint in t.subkeys {
      assert forall i :: 0 <= i < |key.subKeys| ==> SubFps(key)[i] in t.subkeys;
      InsertSubkeysUnchanged(t.subkeys, key.rfingerprint, SubFps(key));
    }
  }

  /** What the source counts: the key row inserted (0 or 1) plus the subkey
      rows inserted. The call is a duplicate exactly when that sum is 0. */
  lemma InsertKeyTxCounts(t: Tables, key: PrimaryKey, now: Time, keysInserted: nat, subkeysInserted: nat)
    requires InsertKeyTx(t, key, now).Ok?
    requires var a := InsertKeyTx(t, key, now).value.after;
      |a.keys| == |t.keys| + keysInserted && |a.subkeys| == |t.subkeys| + subkeysInserted
    ensures InsertKeyTx(t, key, now).value.value <==> keysInserted + subkeysInserted == 0
  {
    var a := InsertKeyTx(t, key, now).value.after;
    InsertKeyTxNeverOverwrites(t, key, now);
    MapGrows(t.keys, a.keys);
    MapGrows(t.subkeys, a.subkeys);
    if keysInserted + subkeysInserted == 0 {
      assert a.keys.Keys == t.keys.Keys && a.subkeys.Keys == t.subkeys.Keys;
      assert a.keys == t.keys;
      assert a.subkeys == t.subkeys;
    }
  }

  /** A key that is already stored but brings a subkey the table lacks is
      not a duplicate. */
  lemma KnownKeyWithNewSubkeyIsNotDuplicate(t: Tables, key: PrimaryKey, now: Time, i: nat)
    requires key.rfingerprint in t.keys
    requires i < |key.subKeys| && key.subKeys[i].rfingerprint !in t.subkeys
    ensures InsertKeyTx(t, key, now).Ok? && !InsertKeyTx(t, key, now).value.value
  {
    InsertKeyTxDuplicateIff(t, key, now);
  }

  lemma InsertKeyTxValid(t: Tables, key: PrimaryKey, now: Time)
    requires Valid(t) && InsertKeyTx(t, key, now).Ok?
    ensures Valid(InsertKeyTx(t, key, now).value.after)
  {
    InsertKeyTxStores(t, key, now);
    InsertKeyTxNeverOverwrites(t, key, now);
  }

  /** Inserting the same key again, at any time, is a duplicate. */
  lemma InsertKeyTxTwice(t: Tables, key: PrimaryKey, now: Time, later: Time)
    requires InsertKeyTx(t, key, now).Ok?
    ensures var a := InsertKeyTx(t, key, now).value.after;
      InsertKeyTx(a, key, later) == Ok(Committed(a, true))
  {
    var a := InsertKeyTx(t, key, now).value.after;
    InsertKeyTxStores(t, key, now);
    InsertKeyTxStores(a, key, later);
    assert InsertKeyTx(a, key, later).Ok?;
    InsertKeyTxDuplicateIff(a, key, later);
  }

  // ---------------------------------------------------------------------------
  // deleteTx

  /** subkeys after DELETE FROM subkeys WHERE rfingerprint = rfp. */
  function DropSubkeysOf(subs: map<string, string>, rfp: string): (r: map<string, string>)
    ensures forall s :: s in r <==> s in subs && subs[s] != rfp
    ensures forall s :: s in r ==> r[s] == subs[s]
  {
    map s | s in subs && subs[s] != rfp :: subs[s]
  }

  /** The result is Ok(Committed(after, md5 of the deleted row)). */
  function DeleteTx(t: Tables, fp: string): Result<Committed<string>> {
    var rfp := Reverse(fp);
    if rfp !in t.keys then Err(ErrKeyNotFound)
    else Ok(Committed(Tables(t.keys - {rfp}, DropSubkeysOf(t.subkeys, rfp)), t.keys[rfp].md5))
  }

  /** Delete(fp) removes the key row for Reverse(fp) and every subkey row
      pointing at it, returns the old md5 and touches nothing else; it fails
      with ErrKeyNotFound exactly when no such row exists. */
  lemma DeleteTxSpec(t: Tables, fp: string)
    ensures DeleteTx(t, fp).Err? <==> Reverse(fp) !in t.keys
    ensures DeleteTx(t, fp).Err? ==> DeleteTx(t, fp).error == ErrKeyNotFound
    ensures DeleteTx(t, fp).Ok? ==>
      var c := DeleteTx(t, fp).value; var rfp := Reverse(fp);
      c.value == t.keys[rfp].md5 &&
      c.after.keys.Keys == t.keys.Keys - {rfp} &&
      (forall r :: r in c.after.keys ==> c.after.keys[r] == t.keys[r]) &&
      (forall s :: s in c.after.subkeys <==> s in t.subkeys && t.subkeys[s] != rfp) &&
      (forall s :: s in c.after.subkeys ==> c.after.subkeys[s] == t.subkeys[s])
  {
  }

  lemma DeleteTxValid(t: Tables, fp: string)
    requires Valid(t) && DeleteTx(t, fp).Ok?
    ensures Valid(DeleteTx(t, fp).value.after)
  {
  }

  /** Deleting twice: the first succeeds, the second finds nothing. */
  lemma DeleteTwice(t: Tables, fp: string)
    requires Reverse(fp) in t.keys
    ensures DeleteTx(t, fp).Ok?
    ensures DeleteTx(DeleteTx(t, fp).value.after, fp) == Err(ErrKeyNotFound)
  {
  }

  // ---------------------------------------------------------------------------
  // Replace: deleteTx(key.Fingerprint()) then insertKeyTx, in one transaction.

  function Fingerprint(key: PrimaryKey): string {
    Reverse(key.rfingerprint)
  }

  function ReplaceTx(t: Tables, key: PrimaryKey, now: Time): Result<Committed<string>> {
    match DeleteTx(t, Fingerprint(key))
    case Err(e) => Err(e)
    case Ok(d) =>
      match InsertKeyTx(d.after, key, now)
      case Err(e) => Err(e)
      case Ok(c) => Ok(Committed(c.after, d.value))
  }

  /** Replace fails with ErrKeyNotFound when there is no prior row, and with
      the md5 constraint when another key holds the new md5; otherwise it
      returns the previous md5, and the key ends up stored exactly as a fresh
      insert into the tables without it would store it (so its ctime is
      reset to now and its old subkey rows are gone). */
  lemma ReplaceTxSpec(t: Tables, key: PrimaryKey, now: Time)
    ensures key.rfingerprint !in t.keys ==> ReplaceTx(t, key, now) == Err(ErrKeyNotFound)
    ensures key.rfingerprint in t.keys ==>
      (DeleteTx(t, Fingerprint(key)).Ok? &&
       var d := DeleteTx(t, Fingerprint(key)).value.after;
       (ReplaceTx(t, key, now).Err? <==> MD5Taken(d.keys, key.md5, key.rfingerprint)))
    ensures ReplaceTx(t, key, now).Ok? ==>
      var c := ReplaceTx(t, key, now).value;
      var d := DeleteTx(t, Fingerprint(key)).value.after;
      key.rfingerprint in t.keys && c.value == t.keys[key.rfingerprint].md5 &&
      c.after == InsertKeyTx(d, key, now).value.after &&
      c.after.keys[key.rfingerprint] == NewRow(key, now)
  {
    ReverseInvolutive(key.rfingerprint);
    if key.rfingerprint in t.keys {
      var d := DeleteTx(t, Fingerprint(key)).value.after;
      assert key.rfingerprint !in d.keys;
      InsertKeyTxErrorIff(d, key, now);
      if InsertKeyTx(d, key, now).Ok? {
        InsertKeyTxStores(d, key, now);
      }
    }
  }

  lemma ReplaceTxValid(t: Tables, key: PrimaryKey, now: Time)
    requires Valid(t) && ReplaceTx(t, key, now).Ok?
    ensures Valid(ReplaceTx(t, key, now).value.after)
  {
    DeleteTxValid(t, Fingerprint(key));
    InsertKeyTxValid(DeleteTx(t, Fingerprint(key)).value.after, key, now);
  }

  // ---------------------------------------------------------------------------
  // Update

  /** The row after UPDATE keys SET mtime, md5, keywords, doc. */
  function UpdatedRow(row: KeyRow, key: PrimaryKey, now: Time): KeyRow {
    row.(mtime := now, md5 := key.md5, keywords := Keywords.KeywordsTSVector(key.userIDs), doc := key.doc)
  }

  /** Some subkey of the key has no row yet. */
  predicate HasNewSubkey(subs: map<string, string>, key: PrimaryKey) {
    exists i :: 0 <= i < |key.subKeys| && key.subKeys[i].rfingerprint !in subs
  }

  /** The UPDATE matches no row when the key is not stored (no error); a
      subkey row that would then be inserted violates the foreign key. */
  function UpdateTx(t: Tables, key: PrimaryKey, now: Time): Result<Tables> {
    var rfp := key.rfingerprint;
    if rfp in t.keys && MD5Taken(t.keys, key.md5, rfp) then Err(ErrUniqueMD5(key.md5))
    else if rfp !in t.keys && HasNewSubkey(t.subkeys, key) then Err(ErrForeignKey(rfp))
    else
      var keys' := if rfp in t.keys then t.keys[rfp := UpdatedRow(t.keys[rfp], key, now)] else t.keys;
      Ok(Tables(keys', InsertSubkeys(t.subkeys, rfp, SubFps(key))))
  }

  /** Update sets mtime, md5, keywords and doc of the stored row and keeps its
      ctime; it adds only the subkey rows that are absent and never removes
      or re-points one; other key rows are untouched. */
  lemma UpdateTxSpec(t: Tables, key: PrimaryKey, now: Time)
    requires UpdateTx(t, key, now).Ok?
    ensures var a := UpdateTx(t, key, now).value; var rfp := key.rfingerprint;
      a.keys.Keys == t.keys.Keys &&
      (forall r :: r in t.keys && r != rfp ==> a.keys[r] == t.keys[r]) &&
      (rfp in t.keys ==> a.keys[rfp] == t.keys[rfp].(mtime := now, md5 := key.md5,
                           keywords := Keywords.KeywordsTSVector(key.userIDs), doc := key.doc)) &&
      (forall s :: s in t.subkeys ==> s in a.subkeys && a.subkeys[s] == t.subkeys[s]) &&
      (forall i :: 0 <= i < |key.subKeys| ==> key.subKeys[i].rfingerprint in a.subkeys) &&
      (forall s :: s in a.subkeys && s !in t.subkeys ==> a.subkeys[s] == rfp)
  {
    KeysAfterInsertSpec(t.keys, key, now);
    InsertSubkeysSpec(t.subkeys, key.rfingerprint, SubFps(key));
    assert forall i :: 0 <= i < |key.subKeys| ==> SubFps(key)[i] == key.subKeys[i].rfingerprint;
  }

  /** The error cases of Update: the md5 constraint for a stored key, the
      foreign key for a key that is not stored but brings a new subkey. An
      Update of a key that is not stored and brings no new subkey succeeds
      and changes nothing. */
  lemma UpdateTxErrors(t: Tables, key: PrimaryKey, now: Time)
    ensures UpdateTx(t, key, now).Err? <==>
      (key.rfingerprint in t.keys && MD5Taken(t.keys, key.md5, key.rfingerprint)) ||
      (key.rfingerprint !in t.keys && HasNewSubkey(t.subkeys, key))
    ensures key.rfingerprint !in t.keys && UpdateTx(t, key, now).Ok? ==> UpdateTx(t, key, now).value == t
  {
    if key.rfingerprint !in t.keys && !HasNewSubkey(t.subkeys, key) {
      assert forall i :: 0 <= i < |key.subKeys| ==> SubFps(key)[i] in t.subkeys;
      InsertSubkeysUnchanged(t.subkeys, key.rfingerprint, SubFps(key));
    }
  }

  lemma UpdateTxValid(t: Tables, key: PrimaryKey, now: Time)
    requires Valid(t) && UpdateTx(t, key, now).Ok?
    ensures Valid(UpdateTx(t, key, now).value)
  {
    UpdateTxSpec(t, key, now);
    UpdateTxErrors(t, key, now);
    var a := UpdateTx(t, key, now).value;
    forall r1, r2 | r1 in a.keys && r2 in a.keys && r1 != r2 ensures a.keys[r1].md5 != a.keys[r2].md5 {
      if r1 == key.rfingerprint || r2 == key.rfingerprint {
        assert !MD5Taken(t.keys, key.md5, key.rfingerprint);
      }
    }
  }

  // ---------------------------------------------------------------------------
  // Insert: one insertKey transaction per key, with the error cap.

  /** What Insert's loop has produced: the tables, the KeyAdded notifications,
      the duplicates, the collected errors and whether it bailed. */
  datatype Batch = Batch(tables: Tables, added: seq<KeyChange>, duplicates: seq<PrimaryKey>,
                         errors: seq<Error>, bailed: bool)

  /** Insert's loop from the current key on, with `prior` errors collected so
      far. A failed key's transaction is rolled back. */
  function InsertBatch(t: Tables, keys: seq<PrimaryKey>, now: Time, prior: nat): Batch
    decreases |keys|
  {
    if keys == [] then Batch(t, [], [], [], false)
    else if prior > MaxInsertErrors then
      Batch(t, [], [], [ErrTooManyInsertErrors(prior, MaxInsertErrors)], true)
    else
      match InsertKeyTx(t, keys[0], now)
      case Err(e) =>
        var r := InsertBatch(t, keys[1..], now, prior + 1);
        r.(errors := [e] + r.errors)
      case Ok(c) =>
        var r := InsertBatch(c.after, keys[1..], now, prior);
        if c.value then r.(duplicates := [keys[0]] + r.duplicates)
        else r.(added := [KeyAdded(keys[0].keyID, keys[0].md5)] + r.added)
  }

  /** The outcome of a batch whose first keys produced added, duplicates and
      errors and whose remaining keys produce rest. */
  function Continue(added: seq<KeyChange>, duplicates: seq<PrimaryKey>, errors: seq<Error>, rest: Batch): Batch {
    Batch(rest.tables, added + rest.added, duplicates + rest.duplicates, errors + rest.errors, rest.bailed)
  }

  /** One turn of Insert's loop whose key fails: the error is collected. */
  lemma InsertBatchStepErr(t: Tables, keys: seq<PrimaryKey>, now: Time,
                           added: seq<KeyChange>, duplicates: seq<PrimaryKey>, errors: seq<Error>)
    requires keys != [] && |errors| <= MaxInsertErrors
    requires InsertKeyTx(t, keys[0], now).Err?
    ensures Continue(added, duplicates, errors, InsertBatch(t, keys, now, |errors|)) ==
      Continue(added, duplicates, errors + [InsertKeyTx(t, keys[0], now).error], InsertBatch(t, keys[1..], now, |errors| + 1))
  {
    var e := InsertKeyTx(t, keys[0], now).error;
    var rest := InsertBatch(t, keys[1..], now, |errors| + 1);
    assert InsertBatch(t, keys, now, |errors|) == rest.(errors := [e] + rest.errors);
    assert errors + ([e] + rest.errors) == (errors + [e]) + rest.errors;
  }

  /** One turn of Insert's loop whose key is a duplicate: it is collected. */
  lemma InsertBatchStepDuplicate(t: Tables, keys: seq<PrimaryKey>, now: Time,
                                 added: seq<KeyChange>, duplicates: seq<PrimaryKey>, errors: seq<Error>)
    requires keys != [] && |errors| <= MaxInsertErrors
    requires InsertKeyTx(t, keys[0], now).Ok? && InsertKeyTx(t, keys[0], now).value.value
    ensures Continue(added, duplicates, errors, InsertBatch(t, keys, now, |errors|)) ==
      Continue(added, duplicates + [keys[0]], errors, InsertBatch(InsertKeyTx(t, keys[0], now).value.after, keys[1..], now, |errors|))
  {
    var c := InsertKeyTx(t, keys[0], now).value;
    var rest := InsertBatch(c.after, keys[1..], now, |errors|);
    assert InsertBatch(t, keys, now, |errors|) == rest.(duplicates := [keys[0]] + rest.duplicates);
    assert duplicates + ([keys[0]] + rest.duplicates) == (duplicates + [keys[0]]) + rest.duplicates;
  }

  /** One turn of Insert's loop whose key is stored anew: KeyAdded is due. */
  lemma InsertBatchStepAdded(t: Tables, keys: seq<PrimaryKey>, now: Time,
                             added: seq<KeyChange>, duplicates: seq<PrimaryKey>, errors: seq<Error>)
    requires keys != [] && |errors| <= MaxInsertErrors
    requires InsertKeyTx(t, keys[0], now).Ok? && !InsertKeyTx(t, keys[0], now).value.value
    ensures Continue(added, duplicates, errors, InsertBatch(t, keys, now, |errors|)) ==
      Continue(added + [KeyAdded(keys[0].keyID, keys[0].md5)], duplicates, errors,
               InsertBatch(InsertKeyTx(t, keys[0], now).value.after, keys[1..], now, |errors|))
  {
    var c := InsertKeyTx(t, keys[0], now).value;
    var a := KeyAdded(keys[0].keyID, keys[0].md5);
    var rest := InsertBatch(c.after, keys[1..], now, |errors|);
    assert InsertBatch(t, keys, now, |errors|) == rest.(added := [a] + rest.added);
    assert added + ([a] + rest.added) == (added + [a]) + rest.added;
  }

  /** The turn on which Insert gives up. */
  lemma InsertBatchBailStep(t: Tables, keys: seq<PrimaryKey>, now: Time,
                            added: seq<KeyChange>, duplicates: seq<PrimaryKey>, errors: seq<Error>)
    requires keys != [] && |errors| > MaxInsertErrors
    ensures Continue(added, duplicates, errors, InsertBatch(t, keys, now, |errors|)) ==
      Batch(t, added, duplicates, errors + [ErrTooManyInsertErrors(|errors|, MaxInsertErrors)], true)
  {
    assert added + [] == added && duplicates + [] == duplicates;
  }

  /** Insert's loop as it runs: from key i on, with what has been collected
      so far. */
  function InsertLoop(t: Tables, keys: seq<PrimaryKey>, i: nat, now: Time,
                      added: seq<KeyChange>, duplicates: seq<PrimaryKey>, errors: seq<Error>): Batch
    requires i <= |keys|
    decreases |keys| - i
  {
    if i == |keys| then Batch(t, added, duplicates, errors, false)
    else if |errors| > MaxInsertErrors then
      Batch(t, added, duplicates, errors + [ErrTooManyInsertErrors(|errors|, MaxInsertErrors)], true)
    else
      match InsertKeyTx(t, keys[i], now)
      case Err(e) => InsertLoop(t, keys, i + 1, now, added, duplicates, errors + [e])
      case Ok(c) =>
        if c.value then InsertLoop(c.after, keys, i + 1, now, added, duplicates + [keys[i]], errors)
        else InsertLoop(c.after, keys, i + 1, now, added + [KeyAdded(keys[i].keyID, keys[i].md5)], duplicates, errors)
  }

  /** One turn of the loop that keeps the key as an error. */
  lemma InsertLoopStepErr(t: Tables, keys: seq<PrimaryKey>, i: nat, now: Time,
                          added: seq<KeyChange>, duplicates: seq<PrimaryKey>, errors: seq<Error>)
    requires i < |keys| && |errors| <= MaxInsertErrors && InsertKeyTx(t, keys[i], now).Err?
    ensures InsertLoop(t, keys, i, now, added, duplicates, errors) ==
            InsertLoop(t, keys, i + 1, now, added, duplicates, errors + [InsertKeyTx(t, keys[i], now).error])
  {
  }

  /** One turn of the loop that keeps the key as a duplicate. */
  lemma InsertLoopStepDuplicate(t: Tables, keys: seq<PrimaryKey>, i: nat, now: Time,
                                added: seq<KeyChange>, duplicates: seq<PrimaryKey>, errors: seq<Error>)
    requires i < |keys| && |errors| <= MaxInsertErrors
    requires InsertKeyTx(t, keys[i], now).Ok? && InsertKeyTx(t, keys[i], now).value.value
    ensures InsertLoop(t, keys, i, now, added, duplicates, errors) ==
            InsertLoop(InsertKeyTx(t, keys[i], now).value.after, keys, i + 1, now, added, duplicates + [keys[i]], errors)
  {
  }

  /** One turn of the loop that announces the key as added. */
  lemma InsertLoopStepAdded(t: Tables, keys: seq<PrimaryKey>, i: nat, now: Time,
                            added: seq<KeyChange>, duplicates: seq<PrimaryKey>, errors: seq<Error>)
    requires i < |keys| && |errors| <= MaxInsertErrors
    requires InsertKeyTx(t, keys[i], now).Ok? && !InsertKeyTx(t, keys[i], now).value.value
    ensures InsertLoop(t, keys, i, now, added, duplicates, errors) ==
            InsertLoop(InsertKeyTx(t, keys[i], now).value.after, keys, i + 1, now,
                       added + [KeyAdded(keys[i].keyID, keys[i].md5)], duplicates, errors)
  {
  }

  /** One key through insertKey, collected as Insert's loop collects it:
      an error, a duplicate, or a KeyAdded notification. */
  function Turn(b: Batch, key: PrimaryKey, now: Time): (r: Batch)
    ensures |b.errors| <= |r.errors|
  {
    match InsertKeyTx(b.tables, key, now)
    case Err(e) => b.(errors := b.errors + [e])
    case Ok(c) =>
      if c.value then b.(tables := c.after, duplicates := b.duplicates + [key])
      else b.(tables := c.after, added := b.added + [KeyAdded(key.keyID, key.md5)])
  }

  /** The first i keys through Turn, from the tables t. */
  function Prefix(t: Tables, keys: seq<PrimaryKey>, i: nat, now: Time): Batch
    requires i <= |keys|
    decreases i, 1
  {
    if i == 0 then Batch(t, [], [], [], false) else PrefixTurn(t, keys, i, now)
  }

  /** The i-th turn after the first i - 1 keys. */
  function PrefixTurn(t: Tables, keys: seq<PrimaryKey>, i: nat, now: Time): Batch
    requires 0 < i <= |keys|
    decreases i, 0
  {
    Turn(Prefix(t, keys, i - 1, now), keys[i - 1], now)
  }

  /** The first i keys through Turn give b. */
  predicate PrefixIs(t: Tables, keys: seq<PrimaryKey>, i: nat, now: Time, b: Batch)
    requires i <= |keys|
  {
    Prefix(t, keys, i, now) == b
  }

  /** While at most MaxInsertErrors errors have been collected before the
      last turn, the loop is the prefix followed by the loop from key i on. */
  lemma {:induction false} PrefixLoop(t: Tables, keys: seq<PrimaryKey>, i: nat, now: Time)
    requires i <= |keys|
    requires i == 0 || |Prefix(t, keys, i - 1, now).errors| <= MaxInsertErrors
    ensures var p := Prefix(t, keys, i, now);
      !p.bailed &&
      InsertLoop(t, keys, 0, now, [], [], []) == InsertLoop(p.tables, keys, i, now, p.added, p.duplicates, p.errors)
  {
    if i > 0 {
      var q := Prefix(t, keys, i - 1, now);
      if i > 1 {
        assert |Prefix(t, keys, i - 2, now).errors| <= |q.errors|;
      }
      PrefixLoop(t, keys, i - 1, now);
      var x := InsertKeyTx(q.tables, keys[i - 1], now);
      if x.Err? {
        InsertLoopStepErr(q.tables, keys, i - 1, now, q.added, q.duplicates, q.errors);
      } else if x.value.value {
        InsertLoopStepDuplicate(q.tables, keys, i - 1, now, q.added, q.duplicates, q.errors);
      } else {
        InsertLoopStepAdded(q.tables, keys, i - 1, now, q.added, q.duplicates, q.errors);
      }
    }
  }

  /** The loop as it runs computes the batch. */
  lemma {:induction false} InsertLoopIsBatch(t: Tables, keys: seq<PrimaryKey>, i: nat, now: Time,
                                             added: seq<KeyChange>, duplicates: seq<PrimaryKey>, errors: seq<Error>)
    requires i <= |keys|
    ensures InsertLoop(t, keys, i, now, added, duplicates, errors) ==
            Continue(added, duplicates, errors, InsertBatch(t, keys[i..], now, |errors|))
    decreases |keys| - i
  {
    if i == |keys| {
      assert keys[i..] == [];
      assert added + [] == added && duplicates + [] == duplicates && errors + [] == errors;
    } else if |errors| > MaxInsertErrors {
      InsertBatchBailStep(t, keys[i..], now, added, duplicates, errors);
    } else {
      var rest := keys[i..];
      assert rest[0] == keys[i] && rest[1..] == keys[i + 1..];
      var res := InsertKeyTx(t, keys[i], now);
      if res.Err? {
        InsertBatchStepErr(t, rest, now, added, duplicates, errors);
        InsertLoopIsBatch(t, keys, i + 1, now, added, duplicates, errors + [res.error]);
      } else if res.value.value {
        InsertBatchStepDuplicate(t, rest, now, added, duplicates, errors);
        InsertLoopIsBatch(res.value.after, keys, i + 1, now, added, duplicates + [keys[i]], errors);
      } else {
        InsertBatchStepAdded(t, rest, now, added, duplicates, errors);
        InsertLoopIsBatch(res.value.after, keys, i + 1, now, added + [KeyAdded(keys[i].keyID, keys[i].md5)], duplicates, errors);
      }
    }
  }
  /** Where the loop stops, the batch is what it has collected, with the
      bail-out error appended when keys were left over. */
  lemma InsertLoopDone(start: Tables, keys: seq<PrimaryKey>, now: Time, t: Tables, i: nat,
                       added: seq<KeyChange>, duplicates: seq<PrimaryKey>, errors: seq<Error>)
    requires i <= |keys| && (i == |keys| || |errors| > MaxInsertErrors)
    requires InsertLoop(start, keys, 0, now, [], [], []) == InsertLoop(t, keys, i, now, added, duplicates, errors)
    ensures var b := InsertBatch(start, keys, now, 0);
      b.tables == t && b.added == added && b.duplicates == duplicates &&
      b.errors == (if i < |keys| then errors + [ErrTooManyInsertErrors(|errors|, MaxInsertErrors)] else errors)
  {
    var b := InsertBatch(start, keys, now, 0);
    InsertLoopIsBatch(start, keys, 0, now, [], [], []);
    assert keys[0..] == keys;
    assert [] + b.added == b.added && [] + b.duplicates == b.duplicates && [] + b.errors == b.errors;
  }


  lemma {:induction false} InsertBatchValid(t: Tables, keys: seq<PrimaryKey>, now: Time, prior: nat)
    requires Valid(t)
    ensures Valid(InsertBatch(t, keys, now, prior).tables)
    decreases |keys|
  {
    if keys != [] && prior <= MaxInsertErrors {
      match InsertKeyTx(t, keys[0], now)
      case Err(_) => InsertBatchValid(t, keys[1..], now, prior + 1);
      case Ok(c) =>
        InsertKeyTxValid(t, keys[0], now);
        InsertBatchValid(c.after, keys[1..], now, prior);
    }
  }

  /** The error cap: the loop stops once more than 100 errors are collected,
      so it never reports more than 102 (the 101 errors and the bail-out). */
  lemma {:induction false} InsertBatchErrorCap(t: Tables, keys: seq<PrimaryKey>, now: Time, prior: nat)
    requires prior <= MaxInsertErrors + 1
    ensures prior + |InsertBatch(t, keys, now, prior).errors| <= MaxInsertErrors + 2
    decreases |keys|
  {
    if keys != [] && prior <= MaxInsertErrors {
      var res := InsertKeyTx(t, keys[0], now);
      if res.Err? {
        InsertBatchErrorCap(t, keys[1..], now, prior + 1);
      } else {
        InsertBatchErrorCap(res.value.after, keys[1..], now, prior);
      }
    }
  }

  /** When the loop bails, it has collected exactly 101 errors and the last
      error reported is the bail-out itself. */
  lemma {:induction false} InsertBatchBails(t: Tables, keys: seq<PrimaryKey>, now: Time, prior: nat)
    requires prior <= MaxInsertErrors + 1
    ensures var r := InsertBatch(t, keys, now, prior);
      r.bailed ==> prior + |r.errors| == MaxInsertErrors + 2 &&
                   r.errors[|r.errors| - 1] == ErrTooManyInsertErrors(MaxInsertErrors + 1, MaxInsertErrors)
    decreases |keys|
  {
    if keys != [] && prior <= MaxInsertErrors {
      var res := InsertKeyTx(t, keys[0], now);
      if res.Err? {
        var r := InsertBatch(t, keys[1..], now, prior + 1);
        InsertBatchBails(t, keys[1..], now, prior + 1);
        assert InsertBatch(t, keys, now, prior).errors == [res.error] + r.errors;
      } else {
        InsertBatchBails(res.value.after, keys[1..], now, prior);
      }
    }
  }

  /** Every key of a batch that did not bail is accounted for exactly once,
      as added, as a duplicate or as an error. */
  lemma {:induction false} InsertBatchAccounts(t: Tables, keys: seq<PrimaryKey>, now: Time, prior: nat)
    ensures var r := InsertBatch(t, keys, now, prior);
      (!r.bailed ==> |r.added| + |r.duplicates| + |r.errors| == |keys|) &&
      |r.added| + |r.duplicates| <= |keys|
    decreases |keys|
  {
    if keys != [] && prior <= MaxInsertErrors {
      var res := InsertKeyTx(t, keys[0], now);
      if res.Err? {
        InsertBatchAccounts(t, keys[1..], now, prior + 1);
      } else {
        var r := InsertBatch(res.value.after, keys[1..], now, prior);
        InsertBatchAccounts(res.value.after, keys[1..], now, prior);
        if res.value.value {
          assert InsertBatch(t, keys, now, prior) == r.(duplicates := [keys[0]] + r.duplicates);
        } else {
          assert InsertBatch(t, keys, now, prior) == r.(added := [KeyAdded(keys[0].keyID, keys[0].md5)] + r.added);
        }
      }
    }
  }

  predicate Increasing(idx: seq<nat>) {
    forall a, b :: 0 <= a < b < |idx| ==> idx[a] < idx[b]
  }

  function Shift(idx: seq<nat>): (r: seq<nat>)
    ensures |r| == |idx| && forall j :: 0 <= j < |idx| ==> r[j] == idx[j] + 1
  {
    seq(|idx|, j requires 0 <= j < |idx| => idx[j] + 1)
  }

  /** idx picks, in increasing order, the keys that `added` announces. */
  predicate AddedFrom(idx: seq<nat>, keys: seq<PrimaryKey>, added: seq<KeyChange>) {
    |idx| == |added| && Increasing(idx) &&
    forall j :: 0 <= j < |idx| ==>
      (idx[j] < |keys| && added[j] == KeyAdded(keys[idx[j]].keyID, keys[idx[j]].md5))
  }

  lemma AddedFromShift(idx: seq<nat>, keys: seq<PrimaryKey>, added: seq<KeyChange>)
    requires keys != [] && AddedFrom(idx, keys[1..], added)
    ensures AddedFrom(Shift(idx), keys, added)
  {
    var tail := keys[1..];
    forall j | 0 <= j < |idx| ensures tail[idx[j]] == keys[Shift(idx)[j]] {
    }
  }

  lemma AddedFromCons(idx: seq<nat>, keys: seq<PrimaryKey>, added: seq<KeyChange>)
    requires keys != [] && AddedFrom(idx, keys[1..], added)
    ensures AddedFrom([0] + Shift(idx), keys, [KeyAdded(keys[0].keyID, keys[0].md5)] + added)
  {
    AddedFromShift(idx, keys, added);
    var r := [0] + Shift(idx);
    assert forall j :: 1 <= j < |r| ==> r[j] == Shift(idx)[j - 1];
  }

  /** The KeyAdded notifications announce, in input order, keys of the
      batch. */
  lemma {:induction false} InsertBatchAddedInOrder(t: Tables, keys: seq<PrimaryKey>, now: Time, prior: nat)
    returns (idx: seq<nat>)
    ensures AddedFrom(idx, keys, InsertBatch(t, keys, now, prior).added)
    decreases |keys|
  {
    if keys == [] || prior > MaxInsertErrors {
      idx := [];
    } else {
      var res := InsertKeyTx(t, keys[0], now);
      var tail := keys[1..];
      if res.Err? {
        var r := InsertBatch(t, tail, now, prior + 1);
        var rest := InsertBatchAddedInOrder(t, tail, now, prior + 1);
        assert InsertBatch(t, keys, now, prior).added == r.added;
        AddedFromShift(rest, keys, r.added);
        idx := Shift(rest);
      } else {
        var c := res.value;
        var r := InsertBatch(c.after, tail, now, prior);
        var rest := InsertBatchAddedInOrder(c.after, tail, now, prior);
        if c.value {
          assert InsertBatch(t, keys, now, prior).added == r.added;
          AddedFromShift(rest, keys, r.added);
          idx := Shift(rest);
        } else {
          assert InsertBatch(t, keys, now, prior).added == [KeyAdded(keys[0].keyID, keys[0].md5)] + r.added;
          AddedFromCons(rest, keys, r.added);
          idx := [0] + Shift(rest);
        }
      }
    }
  }

  /** A key row present before the loop is still present after it. */
  lemma {:induction false} InsertBatchKeeps(t: Tables, keys: seq<PrimaryKey>, now: Time, prior: nat, rfp: string)
    requires rfp in t.keys
    ensures rfp in InsertBatch(t, keys, now, prior).tables.keys
    decreases |keys|
  {
    if keys != [] && prior <= MaxInsertErrors {
      match InsertKeyTx(t, keys[0], now)
      case Err(_) => InsertBatchKeeps(t, keys[1..], now, prior + 1, rfp);
      case Ok(c) =>
        InsertKeyTxNeverOverwrites(t, keys[0], now);
        InsertBatchKeeps(c.after, keys[1..], now, prior, rfp);
    }
  }

  /** Inserting a new key twice in one batch stores it once, notifies once
      and reports the second copy as a duplicate, without errors. */
  lemma InsertSameKeyTwice(t: Tables, key: PrimaryKey, now: Time)
    requires key.rfingerprint !in t.keys && !MD5Taken(t.keys, key.md5, key.rfingerprint)
    ensures var r := InsertBatch(t, [key, key], now, 0);
      r.added == [KeyAdded(key.keyID, key.md5)] && r.duplicates == [key] && r.errors == [] &&
      r.tables == InsertKeyTx(t, key, now).value.after
  {
    var c := InsertKeyTx(t, key, now).value;
    InsertKeyTxStores(t, key, now);
    InsertKeyTxDuplicateIff(t, key, now);
    assert !c.value;
    InsertKeyTxTwice(t, key, now, now);
    assert [key, key][1..] == [key];
    assert [key][1..] == [];
    var last := InsertBatch(c.after, [key], now, 0);
    assert InsertKeyTx(c.after, key, now) == Ok(Committed(c.after, true));
    assert InsertBatch(c.after, [], now, 0) == Batch(c.after, [], [], [], false);
    assert last == Batch(c.after, [], [key], [], false);
    assert InsertBatch(t, [key, key], now, 0) == last.(added := [KeyAdded(key.keyID, key.md5)] + last.added);
  }
}
