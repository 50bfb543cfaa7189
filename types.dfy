// Values shared by the key store: the parsed key as the store sees it, the
// change notifications, the errors, and the string helpers the store relies on
// (reversal of fingerprints, ASCII lower-casing, prefix tests).
module HkpTypes {

  datatype Option<+T> = None | Some(value: T)

  datatype Result<+T> = Ok(value: T) | Err(error: Error)

  /** The errors the store can report. */
  datatype Error =
    | ErrKeyNotFound                        // no key row for the fingerprint
    | ErrUniqueMD5(md5: string)             // the keys.md5 UNIQUE constraint is violated
    | ErrForeignKey(rfingerprint: string)   // a subkey row would reference a missing key row
    | ErrTooManyInsertErrors(count: nat, max: nat)
    | ErrKeywordTooLong(length: nat, limit: nat)
    | ErrKeywordsTooLong(length: nat, limit: nat)
    | ErrInvalidHex(input: string)
    | ErrEmptyInList                        // "... IN ()" is rejected by the SQL parser
    | ErrParse                              // the packet reader failed
    | ErrMultipleKeys(first: string, second: string)
    | ErrFingerprintMismatch(expected: string, got: string)
    | ErrScanArity(columns: nat, dests: nat)  // rows.Scan given the wrong number of destinations
    | ErrUnsupportedScan(column: nat)       // rows.Scan cannot store that column in its destination
    | ErrJSON                               // json.Unmarshal rejected the scanned text

  type Time = int

  /** A user ID packet, reduced to its free-text keywords string. */
  datatype UserID = UserID(keywords: string)

  /** A subkey, identified by its reversed fingerprint. */
  datatype SubKey = SubKey(rfingerprint: string)

  /** The JSON document stored in keys.doc: the fingerprint and the packet bytes. */
  datatype Doc = Doc(fingerprint: string, packets: string)

  /** A primary key as handed to the store by the packet reader. */
  datatype PrimaryKey = PrimaryKey(
    rfingerprint: string,
    md5: string,
    keyID: string,
    doc: Doc,
    userIDs: seq<UserID>,
    subKeys: seq<SubKey>)

  /** hkpstorage.KeyChange: the payload delivered to the listeners. */
  datatype KeyChange =
    | KeyAdded(id: string, digest: string)
    | KeyReplaced(oldID: string, oldDigest: string, newID: string, newDigest: string)
    | KeyRemoved(id: string, digest: string)

  /** openpgp.Reverse: the characters of a fingerprint in reverse order. */
  function Reverse(s: string): (r: string)
    ensures |r| == |s|
    ensures forall i :: 0 <= i < |s| ==> r[i] == s[|s| - 1 - i]
  {
    if s == [] then [] else Reverse(s[1..]) + [s[0]]
  }

  lemma {:induction false} ReverseInvolutive(s: string)
    ensures Reverse(Reverse(s)) == s
  {
    var r := Reverse(Reverse(s));
    assert |r| == |s|;
    forall i | 0 <= i < |s| ensures r[i] == s[i] {
      assert r[i] == Reverse(s)[|s| - 1 - i];
    }
  }

  lemma AppendAssoc<T>(a: seq<T>, b: seq<T>, c: seq<T>)
    ensures a + b + c == a + (b + c)
  {
  }

  predicate IsUpper(c: char) { 'A' <= c <= 'Z' }

  function LowerChar(c: char): (d: char)
    ensures !IsUpper(d)
    ensures IsUpper(c) ==> d as int == c as int + 32
    ensures !IsUpper(c) ==> d == c
  {
    if IsUpper(c) then (c as int + 32) as char else c
  }

  /** strings.ToLower, restricted to the ASCII letters. */
  function Lower(s: string): (r: string)
    ensures |r| == |s|
    ensures forall i :: 0 <= i < |s| ==> r[i] == LowerChar(s[i])
  {
    seq(|s|, i requires 0 <= i < |s| => LowerChar(s[i]))
  }

  predicate IsLowered(s: string) {
    forall i :: 0 <= i < |s| ==> !IsUpper(s[i])
  }

  lemma LowerIsLowered(s: string)
    ensures IsLowered(Lower(s))
    ensures Lower(Lower(s)) == Lower(s)
  {
  }

  /** No element occurs twice. */
  predicate Distinct<T(==)>(s: seq<T>) {
    forall i, j :: 0 <= i < j < |s| ==> s[i] != s[j]
  }

  /** SQL `x LIKE p || '%'`, with the characters of p read literally. */
  predicate IsPrefix(p: string, s: string) {
    |p| <= |s| && s[..|p|] == p
  }
}
