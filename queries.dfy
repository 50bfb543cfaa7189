// The read side of the key store: the rows each query's WHERE clause selects,
// how the rows a query returns become its result, and what the queries
// promise about the tables the transactions leave behind. Unless a query says
// ORDER BY, the database returns its rows in an order of its own choosing;
// the model lets that order be any listing of the selected rows.
module Queries {
  import opened HkpTypes
  import Keywords
  import KeyRead
  import Tables

  /** LIMIT 100 of the MatchKeyword and ModifiedSince queries. */
  const QueryLimit: nat := 100

  function Min(a: nat, b: nat): nat {
    if a < b then a else b
  }

  /** The list holds each member of the set exactly once. */
  ghost predicate Enumerates(s: seq<string>, members: set<string>) {
    Distinct(s) && forall x :: x in s <==> x in members
  }

  lemma {:induction false} DistinctCard(s: seq<string>)
    requires Distinct(s)
    ensures |set x | x in s| == |s|
  {
    if s != [] {
      var init, last := s[..|s| - 1], s[|s| - 1];
      assert s == init + [last];
      assert Distinct(init);
      DistinctCard(init);
      assert last !in init by {
        forall k | 0 <= k < |init| ensures init[k] != last {
          assert init[k] == s[k];
        }
      }
      assert (set x | x in s) == (set x | x in init) + {last};
    }
  }

  /** Distinct members of a set, as many as the set has, are all of it. */
  lemma DistinctFills(s: seq<string>, members: set<string>)
    requires Distinct(s) && (forall x :: x in s ==> x in members) && |s| == |members|
    ensures Enumerates(s, members)
  {
    DistinctCard(s);
    var elems := set x | x in s;
    assert members * elems == elems;
    assert |members - elems| == 0;
    assert forall x :: x in members ==> x in elems;
  }

  lemma EnumeratesSingleton(s: seq<string>, x: string)
    requires Enumerates(s, {x})
    ensures s == [x]
  {
    DistinctCard(s);
    assert (set y | y in s) == {x};
  }

  /** An enumeration has one entry per member. */
  lemma EnumeratesCard(s: seq<string>, members: set<string>)
    requires Enumerates(s, members)
    ensures |s| == |members|
  {
    DistinctCard(s);
    assert (set y | y in s) == members;
  }

  /** The rows of a result set as the database hands them over: each
      selected row once, in an order the database chooses, and no more than
      `limit` of them. */
  method Enumerate(s: set<string>, limit: nat) returns (r: seq<string>)
    ensures Distinct(r) && |r| == Min(limit, |s|)
    ensures forall x :: x in r ==> x in s
    ensures limit >= |s| ==> Enumerates(r, s)
  {
    r := [];
    var rest := s;
    while rest != {} && |r| < limit
      invariant rest <= s && Distinct(r) && |r| <= limit
      invariant forall x :: x in r <==> x in s && x !in rest
      invariant |r| + |rest| == |s|
      decreases |rest|
    {
      var x :| x in rest;
      r := r + [x];
      rest := rest - {x};
    }
    if limit >= |s| {
      DistinctFills(r, s);
    }
  }

  // ---------------------------------------------------------------------------
  // MatchMD5: "SELECT rfingerprint FROM keys WHERE md5 IN (...)"

  function RowsWithMD5(keys: map<string, Tables.KeyRow>, md5s: seq<string>): set<string> {
    set r | r in keys && keys[r].md5 in md5s
  }

  /** Under the md5 UNIQUE constraint, a stored key's md5 selects that key's
      row and no other. */
  lemma MD5SelectsOneRow(t: Tables.Tables, rfp: string)
    requires Tables.Valid(t) && rfp in t.keys
    ensures RowsWithMD5(t.keys, [t.keys[rfp].md5]) == {rfp}
  {
  }

  /** A key that insertKeyTx stores as a new row is found again by its md5,
      and it is the only row with that md5. */
  lemma MD5AfterInsert(t: Tables.Tables, key: PrimaryKey, now: Time)
    requires Tables.Valid(t) && Tables.InsertKeyTx(t, key, now).Ok? && key.rfingerprint !in t.keys
    ensures RowsWithMD5(Tables.InsertKeyTx(t, key, now).value.after.keys, [key.md5]) == {key.rfingerprint}
  {
    var a := Tables.InsertKeyTx(t, key, now).value.after;
    Tables.InsertKeyTxStores(t, key, now);
    Tables.InsertKeyTxValid(t, key, now);
    MD5SelectsOneRow(a, key.rfingerprint);
  }

  // ---------------------------------------------------------------------------
  // Resolve and resolveSubKeys: "... WHERE rfingerprint LIKE $1 || '%'" and
  // "... WHERE rsubfp LIKE $1 || '%'", one QueryRow per identifier.

  predicate KeyPrefixed(keys: map<string, Tables.KeyRow>, p: string) {
    exists r :: r in keys && IsPrefix(p, r)
  }

  predicate SubkeyPrefixed(subs: map<string, string>, p: string) {
    exists s :: s in subs && IsPrefix(p, s)
  }

  /** What QueryRow scans for one identifier on the keys table: some row
      whose rfingerprint starts with it, or "" when there is none. */
  predicate KeyAnswer(keys: map<string, Tables.KeyRow>, id: string, r: string) {
    if KeyPrefixed(keys, id) then r in keys && IsPrefix(id, r) else r == ""
  }

  /** The same on the subkeys table: the owner of some subkey whose rsubfp
      starts with the identifier, or "". */
  predicate SubkeyAnswer(subs: map<string, string>, id: string, r: string) {
    if SubkeyPrefixed(subs, id) then exists s :: s in subs && IsPrefix(id, s) && subs[s] == r
    else r == ""
  }

  /** The lower-cased identifiers that start no key row, in order: those
      Resolve hands to resolveSubKeys. */
  function KeyMisses(keys: map<string, Tables.KeyRow>, ids: seq<string>): seq<string> {
    if ids == [] then []
    else
      var id := Lower(ids[|ids| - 1]);
      KeyMisses(keys, ids[..|ids| - 1]) + (if KeyPrefixed(keys, id) then [] else [id])
  }

  /** Resolve's answer: one entry per identifier from the keys table, then
      one entry per miss from the subkeys table. */
  predicate Resolution(t: Tables.Tables, ids: seq<string>, r: seq<string>) {
    var misses := KeyMisses(t.keys, ids);
    |r| == |ids| + |misses| &&
    (forall i :: 0 <= i < |ids| ==> KeyAnswer(t.keys, Lower(ids[i]), r[i])) &&
    (forall j :: 0 <= j < |misses| ==> SubkeyAnswer(t.subkeys, misses[j], r[|ids| + j]))
  }

  /** Each miss is a lower-case identifier of the list that starts no key
      row; there are none exactly when every identifier starts a key row. */
  lemma {:induction false} KeyMissesSpec(keys: map<string, Tables.KeyRow>, ids: seq<string>)
    ensures var m := KeyMisses(keys, ids);
      |m| <= |ids| &&
      (forall j :: 0 <= j < |m| ==> Lower(m[j]) == m[j] && !KeyPrefixed(keys, m[j]) &&
                                    exists i :: 0 <= i < |ids| && m[j] == Lower(ids[i])) &&
      (m == [] <==> forall i :: 0 <= i < |ids| ==> KeyPrefixed(keys, Lower(ids[i])))
  {
    if ids != [] {
      var init := ids[..|ids| - 1];
      var id := Lower(ids[|ids| - 1]);
      KeyMissesSpec(keys, init);
      LowerIsLowered(ids[|ids| - 1]);
      var m := KeyMisses(keys, ids);
      var m0 := KeyMisses(keys, init);
      assert m == m0 + (if KeyPrefixed(keys, id) then [] else [id]);
      forall j | 0 <= j < |m|
        ensures Lower(m[j]) == m[j] && !KeyPrefixed(keys, m[j]) &&
                exists i :: 0 <= i < |ids| && m[j] == Lower(ids[i])
      {
        if j < |m0| {
          assert m[j] == m0[j];
          var i :| 0 <= i < |init| && m0[j] == Lower(init[i]);
          assert init[i] == ids[i];
        } else {
          assert m[j] == id;
        }
      }
      if forall i :: 0 <= i < |ids| ==> KeyPrefixed(keys, Lower(ids[i])) {
        assert forall i :: 0 <= i < |init| ==> init[i] == ids[i];
        assert KeyPrefixed(keys, id);
      }
    }
  }

  /** Under the foreign key of the subkeys table, every entry of Resolve's
      answer names a key row, unless it is the "" of a miss. */
  lemma ResolutionNamesKeys(t: Tables.Tables, ids: seq<string>, r: seq<string>)
    requires Tables.Valid(t) && Resolution(t, ids, r)
    ensures forall k :: 0 <= k < |r| ==> r[k] == "" || r[k] in t.keys
  {
    var misses := KeyMisses(t.keys, ids);
    forall k | 0 <= k < |r| ensures r[k] == "" || r[k] in t.keys {
      if k >= |ids| {
        assert SubkeyAnswer(t.subkeys, misses[k - |ids|], r[|ids| + (k - |ids|)]);
      }
    }
  }

  // ---------------------------------------------------------------------------
  // MatchKeyword: "... WHERE keywords @@ plainto_tsquery($1) LIMIT 100", once
  // per search term. The text-search match itself is the parameter `matches`.

  function RowsMatching(keys: map<string, Tables.KeyRow>, matches: (string, string) -> bool, term: string): set<string> {
    set r | r in keys && matches(keys[r].keywords, term)
  }

  /** One term's rows: distinct matching rows, as many as the limit allows. */
  predicate TermAnswer(keys: map<string, Tables.KeyRow>, matches: (string, string) -> bool, term: string, b: seq<string>) {
    var rows := RowsMatching(keys, matches, term);
    Distinct(b) && |b| == Min(QueryLimit, |rows|) && forall x :: x in b ==> x in rows
  }

  /** One block of rows per term, in the order of the terms. */
  predicate KeywordAnswer(keys: map<string, Tables.KeyRow>, matches: (string, string) -> bool, search: seq<string>,
                          blocks: seq<seq<string>>) {
    |blocks| == |search| && forall i :: 0 <= i < |search| ==> TermAnswer(keys, matches, search[i], blocks[i])
  }

  /** Every row MatchKeyword returns matches one of the terms. */
  lemma KeywordAnswerSound(keys: map<string, Tables.KeyRow>, matches: (string, string) -> bool, search: seq<string>,
                           blocks: seq<seq<string>>, x: string)
    requires KeywordAnswer(keys, matches, search, blocks) && x in Keywords.ConcatAll(blocks)
    ensures x in keys && exists i :: 0 <= i < |search| && matches(keys[x].keywords, search[i])
  {
    Keywords.ConcatAllMember(blocks, x);
    var i :| 0 <= i < |blocks| && x in blocks[i];
    assert x in RowsMatching(keys, matches, search[i]);
  }

  /** A term that at most 100 rows match brings every one of them. */
  lemma KeywordAnswerComplete(keys: map<string, Tables.KeyRow>, matches: (string, string) -> bool, search: seq<string>,
                              blocks: seq<seq<string>>, i: nat, x: string)
    requires KeywordAnswer(keys, matches, search, blocks) && i < |search|
    requires |RowsMatching(keys, matches, search[i])| <= QueryLimit
    requires x in keys && matches(keys[x].keywords, search[i])
    ensures x in Keywords.ConcatAll(blocks)
  {
    var rows := RowsMatching(keys, matches, search[i]);
    DistinctFills(blocks[i], rows);
    assert x in rows;
    Keywords.ConcatAllMember(blocks, x);
  }

  // ---------------------------------------------------------------------------
  // ModifiedSince: "... WHERE mtime > $1 ORDER BY mtime DESC LIMIT 100"

  function RowsModifiedAfter(keys: map<string, Tables.KeyRow>, since: Time): set<string> {
    set r | r in keys && keys[r].mtime > since
  }

  /** The answer of ModifiedSince: distinct rows modified after `since`,
      newest first, as many as the limit allows, and no row left out is
      newer than a row returned. */
  predicate NewestFirst(keys: map<string, Tables.KeyRow>, since: Time, r: seq<string>) {
    Distinct(r) && |r| == Min(QueryLimit, |RowsModifiedAfter(keys, since)|) &&
    (forall i :: 0 <= i < |r| ==> r[i] in keys && keys[r[i]].mtime > since) &&
    (forall i, j :: 0 <= i < j < |r| ==> keys[r[i]].mtime >= keys[r[j]].mtime) &&
    (forall x, i :: x in keys && keys[x].mtime > since && x !in r && 0 <= i < |r| ==>
                    keys[x].mtime <= keys[r[i]].mtime)
  }

  /** Every nonempty set of rows has a newest one. */
  lemma {:induction false} NewestIn(keys: map<string, Tables.KeyRow>, s: set<string>) returns (x: string)
    requires s != {} && forall y :: y in s ==> y in keys
    ensures x in s && forall y :: y in s ==> keys[y].mtime <= keys[x].mtime
    decreases |s|
  {
    var z :| z in s;
    if s == {z} {
      x := z;
    } else {
      var w := NewestIn(keys, s - {z});
      x := if keys[z].mtime <= keys[w].mtime then w else z;
    }
  }

  lemma NewestExists(keys: map<string, Tables.KeyRow>, s: set<string>)
    requires s != {} && forall y :: y in s ==> y in keys
    ensures exists x :: x in s && forall y :: y in s ==> keys[y].mtime <= keys[x].mtime
  {
    var x := NewestIn(keys, s);
  }

  /** ModifiedSince's loop after some turns: r holds distinct rows modified
      after `since`, newest first, `rest` the selected rows not yet taken,
      none of them newer than a row in r. */
  ghost predicate NewestSoFar(keys: map<string, Tables.KeyRow>, since: Time, r: seq<string>, rest: set<string>) {
    var rows := RowsModifiedAfter(keys, since);
    rest <= rows && Distinct(r) && |r| + |rest| == |rows| &&
    (forall x :: x in r <==> x in rows && x !in rest) &&
    (forall i :: 0 <= i < |r| ==> r[i] in keys && keys[r[i]].mtime > since) &&
    (forall i, j :: 0 <= i < j < |r| ==> keys[r[i]].mtime >= keys[r[j]].mtime) &&
    (forall x, i :: x in rest && 0 <= i < |r| ==> keys[x].mtime <= keys[r[i]].mtime)
  }

  /** Taking a newest row of those left keeps the loop's invariant. */
  lemma NewestStep(keys: map<string, Tables.KeyRow>, since: Time, r: seq<string>, rest: set<string>, x: string)
    requires NewestSoFar(keys, since, r, rest)
    requires x in rest && forall y :: y in rest ==> keys[y].mtime <= keys[x].mtime
    ensures NewestSoFar(keys, since, r + [x], rest - {x})
  {
    var r' := r + [x];
    assert forall i :: 0 <= i < |r| ==> r'[i] == r[i];
  }

  /** The loop ends with ModifiedSince's answer when no row is left or 100
      rows have been taken. */
  lemma NewestDone(keys: map<string, Tables.KeyRow>, since: Time, r: seq<string>, rest: set<string>)
    requires NewestSoFar(keys, since, r, rest) && |r| <= QueryLimit && (rest == {} || |r| == QueryLimit)
    ensures NewestFirst(keys, since, r)
  {
  }

  /** When at most 100 rows were modified after `since`, ModifiedSince lists
      all of them. */
  lemma NewestFirstComplete(keys: map<string, Tables.KeyRow>, since: Time, r: seq<string>)
    requires NewestFirst(keys, since, r) && |RowsModifiedAfter(keys, since)| <= QueryLimit
    ensures Enumerates(r, RowsModifiedAfter(keys, since))
  {
    DistinctFills(r, RowsModifiedAfter(keys, since));
  }

  /** A key row that Update rewrites at a time after `since` is one that
      ModifiedSince(since) selects. */
  lemma UpdatedRowIsModified(t: Tables.Tables, key: PrimaryKey, now: Time, since: Time)
    requires Tables.UpdateTx(t, key, now).Ok? && key.rfingerprint in t.keys && since < now
    ensures key.rfingerprint in RowsModifiedAfter(Tables.UpdateTx(t, key, now).value.keys, since)
  {
    Tables.UpdateTxSpec(t, key, now);
  }

  /** So is a key row that insertKeyTx creates at a time after `since`. */
  lemma InsertedRowIsModified(t: Tables.Tables, key: PrimaryKey, now: Time, since: Time)
    requires Tables.InsertKeyTx(t, key, now).Ok? && key.rfingerprint !in t.keys && since < now
    ensures key.rfingerprint in RowsModifiedAfter(Tables.InsertKeyTx(t, key, now).value.after.keys, since)
  {
    Tables.InsertKeyTxStores(t, key, now);
  }

  // ---------------------------------------------------------------------------
  // FetchKeys: "SELECT doc FROM keys WHERE rfingerprint IN (...)", and
  // readOneKey on each document.

  function RowsWithRfp(keys: map<string, Tables.KeyRow>, rfps: seq<string>): set<string> {
    set r | r in keys && r in rfps
  }

  /** readOneKey on a stored document: its packets, read by `read`, checked
      against the fingerprint the document carries. */
  function ReadDoc(doc: Doc, read: string -> Result<seq<PrimaryKey>>): Result<Option<PrimaryKey>> {
    KeyRead.ReadOneKey(read(doc.packets), Reverse(doc.fingerprint))
  }

  predicate InKeys(keys: map<string, Tables.KeyRow>, order: seq<string>) {
    forall i :: 0 <= i < |order| ==> order[i] in keys
  }

  /** The documents of the rows in the order they arrive; the first one that
      does not read ends the loop with its error. */
  function ReadDocs(keys: map<string, Tables.KeyRow>, order: seq<string>, read: string -> Result<seq<PrimaryKey>>)
    : Result<seq<Option<PrimaryKey>>>
    requires InKeys(keys, order)
  {
    if order == [] then Ok([])
    else
      match ReadDoc(keys[order[0]].doc, read)
      case Err(e) => Err(e)
      case Ok(k) => Prepend([k], ReadDocs(keys, order[1..], read))
  }

  function Prepend<T>(acc: seq<T>, r: Result<seq<T>>): Result<seq<T>> {
    match r
    case Err(e) => Err(e)
    case Ok(s) => Ok(acc + s)
  }

  lemma PrependPrepend<T>(a: seq<T>, b: seq<T>, r: Result<seq<T>>)
    ensures Prepend(a, Prepend(b, r)) == Prepend(a + b, r)
  {
    if r.Ok? {
      assert a + (b + r.value) == a + b + r.value;
    }
  }

  lemma PrependEmpty<T>(acc: seq<T>, r: Result<seq<T>>)
    ensures Prepend([], r) == r && Prepend(acc, Ok([])) == Ok(acc)
  {
    if r.Ok? {
      assert [] + r.value == r.value;
    }
    assert acc + [] == acc;
  }

  /** The rows from i on: row i's document, then the rest. */
  lemma ReadDocsFrom(keys: map<string, Tables.KeyRow>, order: seq<string>, i: nat, read: string -> Result<seq<PrimaryKey>>)
    requires InKeys(keys, order) && i < |order|
    ensures InKeys(keys, order[i..]) && InKeys(keys, order[i + 1..])
    ensures ReadDocs(keys, order[i..], read) ==
      match ReadDoc(keys[order[i]].doc, read)
      case Err(e) => Err(e)
      case Ok(k) => Prepend([k], ReadDocs(keys, order[i + 1..], read))
  {
    assert order[i..][0] == order[i] && order[i..][1..] == order[i + 1..];
  }

  /** FetchKeys' loop succeeds exactly when every document reads, and then
      returns what readOneKey made of each row, in row order; otherwise it
      reports the error of the first document that does not read. */
  lemma {:induction false} ReadDocsOk(keys: map<string, Tables.KeyRow>, order: seq<string>, read: string -> Result<seq<PrimaryKey>>)
    requires InKeys(keys, order)
    ensures var r := ReadDocs(keys, order, read);
      (r.Ok? <==> forall i :: 0 <= i < |order| ==> ReadDoc(keys[order[i]].doc, read).Ok?) &&
      (r.Ok? ==> |r.value| == |order| &&
                 forall i :: 0 <= i < |order| ==> r.value[i] == ReadDoc(keys[order[i]].doc, read).value)
  {
    if order != [] {
      var tail := order[1..];
      assert forall i :: 0 <= i < |tail| ==> tail[i] == order[i + 1];
      ReadDocsOk(keys, tail, read);
      var r := ReadDocs(keys, order, read);
      var first := ReadDoc(keys[order[0]].doc, read);
      var rest := ReadDocs(keys, tail, read);
      if first.Ok? && rest.Ok? {
        assert r.value == [first.value] + rest.value;
      }
    }
  }

  lemma {:induction false} ReadDocsErr(keys: map<string, Tables.KeyRow>, order: seq<string>, read: string -> Result<seq<PrimaryKey>>)
    requires InKeys(keys, order)
    ensures var r := ReadDocs(keys, order, read);
      r.Err? ==> exists i :: 0 <= i < |order| && ReadDoc(keys[order[i]].doc, read) == Err(r.error) &&
                             forall j :: 0 <= j < i ==> ReadDoc(keys[order[j]].doc, read).Ok?
  {
    if order != [] {
      var tail := order[1..];
      ReadDocsErr(keys, tail, read);
      var r := ReadDocs(keys, order, read);
      var first := ReadDoc(keys[order[0]].doc, read);
      var rest := ReadDocs(keys, tail, read);
      if first.Ok? && rest.Err? {
        var i :| 0 <= i < |tail| && ReadDoc(keys[tail[i]].doc, read) == Err(rest.error) &&
                 forall j :: 0 <= j < i ==> ReadDoc(keys[tail[j]].doc, read).Ok?;
        assert ReadDoc(keys[order[i + 1]].doc, read) == Err(r.error);
        assert forall j :: 0 <= j < i + 1 ==> ReadDoc(keys[order[j]].doc, read).Ok? by {
          forall j | 0 <= j < i + 1 ensures ReadDoc(keys[order[j]].doc, read).Ok? {
            if j > 0 {
              assert order[j] == tail[j - 1];
            }
          }
        }
      }
    }
  }

  lemma ReadDocsSpec(keys: map<string, Tables.KeyRow>, order: seq<string>, read: string -> Result<seq<PrimaryKey>>)
    requires InKeys(keys, order)
    ensures var r := ReadDocs(keys, order, read);
      (r.Ok? <==> forall i :: 0 <= i < |order| ==> ReadDoc(keys[order[i]].doc, read).Ok?) &&
      (r.Ok? ==> |r.value| == |order| &&
                 forall i :: 0 <= i < |order| ==> r.value[i] == ReadDoc(keys[order[i]].doc, read).value) &&
      (r.Err? ==> exists i :: 0 <= i < |order| && ReadDoc(keys[order[i]].doc, read) == Err(r.error) &&
                              forall j :: 0 <= j < i ==> ReadDoc(keys[order[j]].doc, read).Ok?)
  {
    ReadDocsOk(keys, order, read);
    ReadDocsErr(keys, order, read);
  }

  /** A key that insertKeyTx stores as a new row reads back from that row:
      its fingerprint selects exactly that row, and the row's document gives
      the key, provided the document carries the key's fingerprint and the
      packet reader parses the packets back to the key. */
  lemma FetchAfterInsert(t: Tables.Tables, key: PrimaryKey, now: Time, read: string -> Result<seq<PrimaryKey>>)
    requires Tables.InsertKeyTx(t, key, now).Ok? && key.rfingerprint !in t.keys
    requires key.doc.fingerprint == Tables.Fingerprint(key) && read(key.doc.packets) == Ok([key])
    ensures var a := Tables.InsertKeyTx(t, key, now).value.after;
      RowsWithRfp(a.keys, [key.rfingerprint]) == {key.rfingerprint} &&
      InKeys(a.keys, [key.rfingerprint]) &&
      ReadDocs(a.keys, [key.rfingerprint], read) == Ok([Some(key)])
  {
    var a := Tables.InsertKeyTx(t, key, now).value.after;
    Tables.InsertKeyTxStores(t, key, now);
    ReverseInvolutive(key.rfingerprint);
    KeyRead.ReadOneKeySpec(read(key.doc.packets), key.rfingerprint, key);
    var order := [key.rfingerprint];
    assert ReadDoc(a.keys[order[0]].doc, read) == Ok(Some(key));
    assert order[1..] == [];
    assert ReadDocs(a.keys, order[1..], read) == Ok([]);
    assert ReadDocs(a.keys, order, read) == Prepend([Some(key)], Ok([]));
    assert [Some(key)] + [] == [Some(key)];
  }

  // ---------------------------------------------------------------------------
  // FetchKeyrings: "SELECT ctime, mtime, doc FROM keys WHERE rfingerprint IN
  // (...)", each row scanned into a string buffer and the keyring's times.

  /** hkpstorage.Keyring: the key with its row's ctime and mtime. */
  datatype Keyring = Keyring(key: Option<PrimaryKey>, ctime: Time, mtime: Time)

  /** A column as the driver delivers it: a timestamp as a time value, the
      jsonb document as raw bytes. */
  datatype SqlValue = SqlTimestamp(time: Time) | SqlJson(doc: Doc)

  /** The three destinations of FetchKeyrings' rows.Scan: bufStr, kr.CTime
      and kr.MTime. */
  datatype Dest = BufStr | CTime | MTime

  /** What bufStr holds: nothing yet, the document's JSON text, or a time
      written out as RFC 3339 text. */
  datatype Text = NoText | DocText(doc: Doc) | TimeText(time: Time)

  /** The destinations after a scan; the times start at the zero time. */
  datatype Targets = Targets(bufStr: Text, ctime: Time, mtime: Time)

  /** The columns the SELECT lists, in its order. */
  function KeyringColumns(row: Tables.KeyRow): seq<SqlValue> {
    [SqlTimestamp(row.ctime), SqlTimestamp(row.mtime), SqlJson(row.doc)]
  }

  /** The destinations as the source passes them: Scan(&bufStr, &kr.CTime, &kr.MTime). */
  const AsWrittenDests: seq<Dest> := [BufStr, CTime, MTime]

  /** The destinations in the order of the SELECT's columns. */
  const ColumnOrderDests: seq<Dest> := [CTime, MTime, BufStr]

  /** database/sql's conversion of one column into one destination: a time
      goes into a string as its text and into a time as itself, the jsonb
      bytes go into a string as the document's text, and bytes cannot be
      stored in a time. */
  function Assign(tg: Targets, v: SqlValue, d: Dest, column: nat): Result<Targets> {
    match d
    case BufStr => Ok(tg.(bufStr := if v.SqlJson? then DocText(v.doc) else TimeText(v.time)))
    case CTime => if v.SqlJson? then Err(ErrUnsupportedScan(column)) else Ok(tg.(ctime := v.time))
    case MTime => if v.SqlJson? then Err(ErrUnsupportedScan(column)) else Ok(tg.(mtime := v.time))
  }

  function ScanFrom(tg: Targets, vals: seq<SqlValue>, dests: seq<Dest>, k: nat): Result<Targets>
    requires |vals| == |dests| && k <= |vals|
    decreases |vals| - k
  {
    if k == |vals| then Ok(tg)
    else
      match Assign(tg, vals[k], dests[k], k)
      case Err(e) => Err(e)
      case Ok(tg') => ScanFrom(tg', vals, dests, k + 1)
  }

  /** rows.Scan: as many destinations as columns, then column k into the
      k-th destination, left to right, the first failure ending the scan. */
  function Scan(vals: seq<SqlValue>, dests: seq<Dest>): Result<Targets> {
    if |vals| != |dests| then Err(ErrScanArity(|vals|, |dests|))
    else ScanFrom(Targets(NoText, 0, 0), vals, dests, 0)
  }

  /** json.Unmarshal of bufStr, which only a document's text survives, then
      readOneKey on the document. */
  function KeyringOf(tg: Targets, read: string -> Result<seq<PrimaryKey>>): Result<Keyring> {
    match tg.bufStr
    case DocText(doc) =>
      (match ReadDoc(doc, read)
       case Err(e) => Err(e)
       case Ok(k) => Ok(Keyring(k, tg.ctime, tg.mtime)))
    case _ => Err(ErrJSON)
  }

  function ReadKeyring(row: Tables.KeyRow, dests: seq<Dest>, read: string -> Result<seq<PrimaryKey>>): Result<Keyring> {
    match Scan(KeyringColumns(row), dests)
    case Err(e) => Err(e)
    case Ok(tg) => KeyringOf(tg, read)
  }

  /** FetchKeyrings' loop over the rows in the order they arrive; the first
      row that does not scan or read ends it with its error. */
  function ReadKeyrings(keys: map<string, Tables.KeyRow>, order: seq<string>, dests: seq<Dest>,
                        read: string -> Result<seq<PrimaryKey>>): Result<seq<Keyring>>
    requires InKeys(keys, order)
  {
    if order == [] then Ok([])
    else
      match ReadKeyring(keys[order[0]], dests, read)
      case Err(e) => Err(e)
      case Ok(k) => Prepend([k], ReadKeyrings(keys, order[1..], dests, read))
  }

  lemma ReadKeyringsFrom(keys: map<string, Tables.KeyRow>, order: seq<string>, i: nat, dests: seq<Dest>,
                         read: string -> Result<seq<PrimaryKey>>)
    requires InKeys(keys, order) && i < |order|
    ensures InKeys(keys, order[i..]) && InKeys(keys, order[i + 1..])
    ensures ReadKeyrings(keys, order[i..], dests, read) ==
      match ReadKeyring(keys[order[i]], dests, read)
      case Err(e) => Err(e)
      case Ok(k) => Prepend([k], ReadKeyrings(keys, order[i + 1..], dests, read))
  {
    assert order[i..][0] == order[i] && order[i..][1..] == order[i + 1..];
  }

  /** As written, the scan puts the ctime column into bufStr, which works,
      and the jsonb doc column into kr.MTime, which cannot work. */
  lemma AsWrittenScanFails(row: Tables.KeyRow)
    ensures Scan(KeyringColumns(row), AsWrittenDests) == Err(ErrUnsupportedScan(2))
  {
    var cols, dests := KeyringColumns(row), AsWrittenDests;
    var t1 := Targets(TimeText(row.ctime), 0, 0);
    var t2 := t1.(ctime := row.mtime);
    assert ScanFrom(t2, cols, dests, 2) == Err(ErrUnsupportedScan(2));
    assert ScanFrom(t1, cols, dests, 1) == ScanFrom(t2, cols, dests, 2);
    assert ScanFrom(Targets(NoText, 0, 0), cols, dests, 0) == ScanFrom(t1, cols, dests, 1);
  }

  /** So FetchKeyrings as written fails on the first row it meets, whatever
      the rows hold. */
  lemma AsWrittenAlwaysFails(keys: map<string, Tables.KeyRow>, order: seq<string>, read: string -> Result<seq<PrimaryKey>>)
    requires InKeys(keys, order) && order != []
    ensures ReadKeyrings(keys, order, AsWrittenDests, read) == Err(ErrUnsupportedScan(2))
  {
    AsWrittenScanFails(keys[order[0]]);
  }

  /** In column order every row scans, with the document in bufStr. */
  lemma ColumnOrderScans(row: Tables.KeyRow)
    ensures Scan(KeyringColumns(row), ColumnOrderDests) == Ok(Targets(DocText(row.doc), row.ctime, row.mtime))
  {
    var cols, dests := KeyringColumns(row), ColumnOrderDests;
    var t1 := Targets(NoText, row.ctime, 0);
    var t2 := t1.(mtime := row.mtime);
    var t3 := t2.(bufStr := DocText(row.doc));
    assert ScanFrom(t3, cols, dests, 3) == Ok(t3);
    assert ScanFrom(t2, cols, dests, 2) == ScanFrom(t3, cols, dests, 3);
    assert ScanFrom(t1, cols, dests, 1) == ScanFrom(t2, cols, dests, 2);
    assert ScanFrom(Targets(NoText, 0, 0), cols, dests, 0) == ScanFrom(t1, cols, dests, 1);
  }

  /** Corrected, FetchKeyrings returns what FetchKeys returns for the same
      rows, each key with its row's ctime and mtime, and fails exactly when
      FetchKeys fails, with the same error. */
  lemma {:induction false} KeyringsAgreeWithDocs(keys: map<string, Tables.KeyRow>, order: seq<string>,
                                                 read: string -> Result<seq<PrimaryKey>>)
    requires InKeys(keys, order)
    ensures var kr := ReadKeyrings(keys, order, ColumnOrderDests, read);
      var d := ReadDocs(keys, order, read);
      (kr.Err? <==> d.Err?) && (kr.Err? ==> kr.error == d.error) &&
      (kr.Ok? ==> |kr.value| == |d.value| == |order| &&
                  forall i :: 0 <= i < |order| ==>
                    kr.value[i] == Keyring(d.value[i], keys[order[i]].ctime, keys[order[i]].mtime))
  {
    ReadDocsSpec(keys, order, read);
    if order != [] {
      var tail := order[1..];
      assert forall i :: 0 <= i < |tail| ==> tail[i] == order[i + 1];
      KeyringsAgreeWithDocs(keys, tail, read);
      var row := keys[order[0]];
      ColumnOrderScans(row);
      assert ReadKeyring(row, ColumnOrderDests, read) ==
        match ReadDoc(row.doc, read)
        case Err(e) => Err(e)
        case Ok(k) => Ok(Keyring(k, row.ctime, row.mtime));
      var kr := ReadKeyrings(keys, order, ColumnOrderDests, read);
      var d := ReadDocs(keys, order, read);
      if kr.Ok? {
        var rest := ReadKeyrings(keys, tail, ColumnOrderDests, read);
        assert kr.value == [kr.value[0]] + rest.value;
        assert d.value == [d.value[0]] + ReadDocs(keys, tail, read).value;
      }
    }
  }

  // ---------------------------------------------------------------------------
  // RenotifyAll: "SELECT md5 FROM keys", and a KeyAdded for each row.

  /** The changes RenotifyAll announces, one per row in the order the rows
      arrive: KeyAdded with the row's md5 and no ID. */
  function Renotifications(keys: map<string, Tables.KeyRow>, order: seq<string>): (c: seq<KeyChange>)
    requires InKeys(keys, order)
    ensures |c| == |order|
  {
    seq(|order|, i requires 0 <= i < |order| => KeyAdded("", keys[order[i]].md5))
  }

  /** Every stored key is announced, and there are as many announcements as
      key rows. */
  lemma RenotifyCovers(keys: map<string, Tables.KeyRow>, order: seq<string>)
    requires Enumerates(order, keys.Keys)
    ensures InKeys(keys, order) && |Renotifications(keys, order)| == |keys|
    ensures forall r :: r in keys ==> KeyAdded("", keys[r].md5) in Renotifications(keys, order)
  {
    DistinctCard(order);
    assert (set x | x in order) == keys.Keys;
    forall r | r in keys ensures KeyAdded("", keys[r].md5) in Renotifications(keys, order) {
      var i :| 0 <= i < |order| && order[i] == r;
      assert Renotifications(keys, order)[i] == KeyAdded("", keys[r].md5);
    }
  }
}
