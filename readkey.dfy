// readOneKey: the integrity checks applied to the keys the packet reader
// returns for one stored document.
module KeyRead {
  import opened HkpTypes

  /** `parsed` is what openpgp.NewKeyReader(...).Read() returned for the
      document's bytes; rfingerprint is the one the document claims. */
  function ReadOneKey(parsed: Result<seq<PrimaryKey>>, rfingerprint: string): (r: Result<Option<PrimaryKey>>)
    ensures parsed.Err? ==> r == Err(parsed.error)
    ensures r.Ok? && r.value.Some? ==> r.value.value.rfingerprint == rfingerprint
  {
    match parsed
    case Err(e) => Err(e)
    case Ok(keys) =>
      if |keys| == 0 then Ok(None)
      else if |keys| > 1 then Err(ErrMultipleKeys(Reverse(keys[0].rfingerprint), Reverse(keys[1].rfingerprint)))
      else if keys[0].rfingerprint != rfingerprint then
        Err(ErrFingerprintMismatch(rfingerprint, keys[0].rfingerprint))
      else Ok(Some(keys[0]))
  }

  /** A key comes back exactly when the reader found one key and it carries
      the expected fingerprint; no key and no error when the reader found
      none; more than one key, or another fingerprint, is an integrity error
      and never a silent pick. The multiple-keys error names the first two
      keys by their forward fingerprints, the mismatch error by the reversed
      ones. */
  lemma ReadOneKeySpec(parsed: Result<seq<PrimaryKey>>, rfingerprint: string, k: PrimaryKey)
    ensures ReadOneKey(parsed, rfingerprint) == Ok(Some(k)) <==>
      parsed == Ok([k]) && k.rfingerprint == rfingerprint
    ensures ReadOneKey(parsed, rfingerprint) == Ok(None) <==> parsed == Ok([])
    ensures parsed.Ok? && |parsed.value| > 1 ==>
      ReadOneKey(parsed, rfingerprint) ==
        Err(ErrMultipleKeys(Reverse(parsed.value[0].rfingerprint), Reverse(parsed.value[1].rfingerprint)))
    ensures parsed.Ok? && |parsed.value| == 1 && parsed.value[0].rfingerprint != rfingerprint ==>
      ReadOneKey(parsed, rfingerprint) == Err(ErrFingerprintMismatch(rfingerprint, parsed.value[0].rfingerprint))
  {
    if parsed.Ok? && |parsed.value| == 1 {
      assert parsed.value == [parsed.value[0]];
    }
  }
}
