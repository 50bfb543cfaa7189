// Keyword extraction (keywordsFromKey) and the size checks that decide whether
// the extracted keywords can be stored as a PostgreSQL tsvector
// (keywordsToTSVector, keywordsTSVector).
module Keywords {
  import opened HkpTypes

  const LexemeLimit: nat := 2048              // bytes in one lexeme
  const TSVectorLimit: nat := 1024 * 1024     // bytes of lexemes plus positions
  const PositionOverhead: nat := 8            // bytes allowed per keyword for its position
  const Separator: string := " & "

  // ---------------------------------------------------------------------------
  // Byte lengths: len([]byte(s)) of the UTF-8 encoding.

  function CharBytes(c: char): (n: nat)
    ensures 1 <= n <= 4
  {
    if c as int < 0x80 then 1
    else if c as int < 0x800 then 2
    else if c as int < 0x10000 then 3
    else 4
  }

  function Utf8Len(s: string): (n: nat)
    ensures |s| <= n <= 4 * |s|
  {
    if s == [] then 0 else CharBytes(s[0]) + Utf8Len(s[1..])
  }

  lemma {:induction false} Utf8LenConcat(a: string, b: string)
    ensures Utf8Len(a + b) == Utf8Len(a) + Utf8Len(b)
  {
    if a != [] {
      assert (a + b)[0] == a[0] && (a + b)[1..] == a[1..] + b;
      Utf8LenConcat(a[1..], b);
    } else {
      assert a + b == b;
    }
  }

  /** Sum of the byte lengths of the keywords. */
  function TotalBytes(ks: seq<string>): nat {
    if ks == [] then 0 else Utf8Len(ks[0]) + TotalBytes(ks[1..])
  }

  /** strings.Join. */
  function Join(ks: seq<string>, sep: string): (r: string)
    ensures |ks| == 1 ==> r == ks[0]
    decreases |ks|
  {
    if ks == [] then [] else if |ks| == 1 then ks[0] else ks[0] + sep + Join(ks[1..], sep)
  }

  /** Appending a keyword to a non-empty list appends the separator and
      the keyword to the joined text. */
  lemma {:induction false} JoinSnoc(ks: seq<string>, k: string, sep: string)
    requires ks != []
    ensures Join(ks + [k], sep) == Join(ks, sep) + sep + k
    decreases |ks|
  {
    if |ks| == 1 {
      assert (ks + [k])[1..] == [k];
    } else {
      assert (ks + [k])[0] == ks[0] && (ks + [k])[1..] == ks[1..] + [k];
      JoinSnoc(ks[1..], k, sep);
    }
  }

  lemma {:induction false} JoinBytes(ks: seq<string>)
    ensures Utf8Len(Join(ks, Separator)) == TotalBytes(ks) + (if ks == [] then 0 else 3 * (|ks| - 1))
    decreases |ks|
  {
    if |ks| == 1 {
      assert TotalBytes(ks) == Utf8Len(ks[0]) + TotalBytes(ks[1..]);
    } else if |ks| > 1 {
      JoinBytes(ks[1..]);
      Utf8LenConcat(ks[0] + Separator, Join(ks[1..], Separator));
      Utf8LenConcat(ks[0], Separator);
      assert Utf8Len(Separator) == 3;
    }
  }

  // ---------------------------------------------------------------------------
  // keywordsToTSVector

  /** Index of the first keyword whose byte length reaches the lexeme limit. */
  function FirstTooLong(ks: seq<string>): (r: Option<nat>)
    ensures r.None? <==> forall i :: 0 <= i < |ks| ==> Utf8Len(ks[i]) < LexemeLimit
    ensures r.Some? ==> r.value < |ks| && Utf8Len(ks[r.value]) >= LexemeLimit
  {
    if ks == [] then None
    else if Utf8Len(ks[0]) >= LexemeLimit then Some(0)
    else match FirstTooLong(ks[1..])
      case None => None
      case Some(k) => Some(k + 1)
  }

  /** The byte count checked against the aggregate limit. */
  function TSVectorBytes(ks: seq<string>): nat {
    Utf8Len(Join(ks, Separator)) + |ks| * PositionOverhead
  }

  function KeywordsToTSVector(ks: seq<string>): (r: Result<string>)
    ensures r.Ok? ==> r.value == Join(ks, Separator)
    ensures r.Err? ==> r.error.ErrKeywordTooLong? || r.error.ErrKeywordsTooLong?
  {
    match FirstTooLong(ks)
    case Some(i) => Err(ErrKeywordTooLong(Utf8Len(ks[i]), LexemeLimit))
    case None =>
      var tsv := Join(ks, Separator);
      var l := Utf8Len(tsv) + |ks| * PositionOverhead;
      if l >= TSVectorLimit then Err(ErrKeywordsTooLong(l, TSVectorLimit)) else Ok(tsv)
  }

  /** The error cases, stated through the byte lengths of the keywords alone:
      the conversion fails exactly when one keyword is 2048 bytes or more, or
      when the keywords, their " & " separators and 8 bytes per keyword reach
      1 MiB. */
  lemma TSVectorErrorIff(ks: seq<string>)
    ensures KeywordsToTSVector(ks).Err? <==>
      (exists i :: 0 <= i < |ks| && Utf8Len(ks[i]) >= LexemeLimit) ||
      TotalBytes(ks) + (if ks == [] then 0 else 3 * (|ks| - 1)) + 8 * |ks| >= TSVectorLimit
    ensures KeywordsToTSVector(ks).Ok? ==> KeywordsToTSVector(ks).value == Join(ks, Separator)
  {
    JoinBytes(ks);
  }

  lemma {:induction false} TotalBytesBound(ks: seq<string>)
    requires forall i :: 0 <= i < |ks| ==> Utf8Len(ks[i]) < LexemeLimit
    ensures TotalBytes(ks) <= |ks| * (LexemeLimit - 1)
  {
    if ks != [] {
      TotalBytesBound(ks[1..]);
    }
  }

  /** Up to 509 keywords that each fit the lexeme limit always fit the
      aggregate limit. */
  lemma FewShortKeywordsFit(ks: seq<string>)
    requires |ks| <= 509
    requires forall i :: 0 <= i < |ks| ==> Utf8Len(ks[i]) < LexemeLimit
    ensures KeywordsToTSVector(ks) == Ok(Join(ks, Separator))
  {
    JoinBytes(ks);
    TotalBytesBound(ks);
  }

  /** 512 keywords of 2047 one-byte characters each overflow the aggregate
      limit although every one of them fits the lexeme limit. */
  lemma ManyLongKeywordsOverflow(ks: seq<string>)
    requires |ks| == 512
    requires forall i :: 0 <= i < |ks| ==> Utf8Len(ks[i]) == LexemeLimit - 1
    ensures KeywordsToTSVector(ks).Err? && KeywordsToTSVector(ks).error.ErrKeywordsTooLong?
  {
    JoinBytes(ks);
    TotalBytesExact(ks, LexemeLimit - 1);
  }

  lemma MulSucc(a: nat, n: nat)
    ensures (a + 1) * n == a * n + n
  {
  }

  lemma {:induction false} TotalBytesExact(ks: seq<string>, n: nat)
    requires forall i :: 0 <= i < |ks| ==> Utf8Len(ks[i]) == n
    ensures TotalBytes(ks) == |ks| * n
  {
    if ks != [] {
      var rest := ks[1..];
      assert forall i :: 0 <= i < |rest| ==> rest[i] == ks[i + 1];
      TotalBytesExact(rest, n);
      assert TotalBytes(ks) == Utf8Len(ks[0]) + TotalBytes(rest);
      MulSucc(|rest|, n);
    }
  }

  lemma {:induction false} TotalBytesRemove(ks: seq<string>, j: nat)
    requires j < |ks|
    ensures TotalBytes(ks) == Utf8Len(ks[j]) + TotalBytes(ks[..j] + ks[j + 1..])
  {
    if j > 0 {
      TotalBytesRemove(ks[1..], j - 1);
      assert ks[1..][..j - 1] + ks[1..][j..] == (ks[..j] + ks[j + 1..])[1..];
    } else {
      assert ks[..j] + ks[j + 1..] == ks[1..];
    }
  }

  /** Removing the element at j removes one occurrence from the multiset. */
  lemma MultisetRemove(b: seq<string>, j: nat)
    requires j < |b|
    ensures multiset(b[..j] + b[j + 1..]) == multiset(b) - multiset{b[j]}
  {
    assert b == b[..j] + [b[j]] + b[j + 1..];
  }

  /** Matching the head of a against b[j] leaves permutations of each other. */
  lemma PermutationRest(a: seq<string>, b: seq<string>, j: nat)
    requires multiset(a) == multiset(b) && a != [] && j < |b| && b[j] == a[0]
    ensures multiset(a[1..]) == multiset(b[..j] + b[j + 1..])
  {
    MultisetRemove(a, 0);
    MultisetRemove(b, j);
    assert a[..0] + a[1..] == a[1..];
  }

  lemma {:induction false} TotalBytesPermutation(a: seq<string>, b: seq<string>)
    requires multiset(a) == multiset(b)
    ensures TotalBytes(a) == TotalBytes(b)
    decreases |a|
  {
    if a != [] {
      assert a[0] in multiset(b);
      var j :| 0 <= j < |b| && b[j] == a[0];
      PermutationRest(a, b, j);
      TotalBytesPermutation(a[1..], b[..j] + b[j + 1..]);
      TotalBytesRemove(b, j);
    } else {
      assert |b| == |multiset(b)| == 0;
    }
  }

  /** Whether the conversion fails does not depend on the order of the
      keywords: the order in which the store enumerates them is immaterial. */
  lemma TSVectorVerdictOrderFree(a: seq<string>, b: seq<string>)
    requires multiset(a) == multiset(b)
    ensures KeywordsToTSVector(a).Err? <==> KeywordsToTSVector(b).Err?
  {
    TSVectorErrorIff(a);
    TSVectorErrorIff(b);
    TotalBytesPermutation(a, b);
    assert |a| == |multiset(a)| == |multiset(b)| == |b|;
    if exists i :: 0 <= i < |a| && Utf8Len(a[i]) >= LexemeLimit {
      var i :| 0 <= i < |a| && Utf8Len(a[i]) >= LexemeLimit;
      assert a[i] in multiset(b);
      var j :| 0 <= j < |b| && b[j] == a[i];
    }
    if exists j :: 0 <= j < |b| && Utf8Len(b[j]) >= LexemeLimit {
      var j :| 0 <= j < |b| && Utf8Len(b[j]) >= LexemeLimit;
      assert b[j] in multiset(a);
      var i :| 0 <= i < |a| && a[i] == b[j];
    }
  }

  // ---------------------------------------------------------------------------
  // Tokenising a user ID

  /** strings.Index for a single character. */
  function IndexOf(s: string, c: char): (r: int)
    ensures -1 <= r < |s|
    ensures r >= 0 ==> s[r] == c
  {
    if s == [] then -1
    else if s[0] == c then 0
    else var k := IndexOf(s[1..], c); if k == -1 then -1 else k + 1
  }

  /** strings.LastIndex for a single character. */
  function LastIndexOf(s: string, c: char): (r: int)
    ensures -1 <= r < |s|
    ensures r >= 0 ==> s[r] == c
  {
    if s == [] then -1
    else if s[|s| - 1] == c then |s| - 1
    else LastIndexOf(s[..|s| - 1], c)
  }

  /** IndexOf finds the first occurrence. */
  lemma {:induction false} IndexOfIs(s: string, c: char, r: nat)
    requires r < |s| && s[r] == c && c !in s[..r]
    ensures IndexOf(s, c) == r
  {
    if r > 0 {
      assert s[..r][0] == s[0];
      assert s[1..][..r - 1] == s[..r][1..];
      IndexOfIs(s[1..], c, r - 1);
    }
  }

  /** IndexOf reports -1 exactly when the character is absent. */
  lemma {:induction false} IndexOfNone(s: string, c: char)
    ensures IndexOf(s, c) == -1 <==> c !in s
  {
    if s != [] && s[0] != c {
      IndexOfNone(s[1..], c);
      assert s == [s[0]] + s[1..];
    }
  }

  /** LastIndexOf finds the last occurrence. */
  lemma {:induction false} LastIndexOfIs(s: string, c: char, r: nat)
    requires r < |s| && s[r] == c && c !in s[r + 1..]
    ensures LastIndexOf(s, c) == r
  {
    if r < |s| - 1 {
      var init := s[..|s| - 1];
      assert s[r + 1..][|s| - 2 - r] == s[|s| - 1];
      assert init[r + 1..] == s[r + 1..][..|s| - 2 - r];
      LastIndexOfIs(init, c, r);
    }
  }

  /** Runes kept inside a name token: letters, digits and '-' (ASCII). */
  predicate IsWordChar(c: char) {
    ('a' <= c <= 'z') || ('A' <= c <= 'Z') || ('0' <= c <= '9') || c == '-'
  }

  predicate IsWord(w: string) {
    forall i :: 0 <= i < |w| ==> IsWordChar(w[i])
  }

  /** Length of the run of word characters at the start of s. */
  function WordLen(s: string): (n: nat)
    ensures n <= |s| && IsWord(s[..n])
    ensures n < |s| ==> !IsWordChar(s[n])
  {
    if s == [] || !IsWordChar(s[0]) then 0
    else var k := WordLen(s[1..]); assert s[..k + 1] == [s[0]] + s[1..][..k]; k + 1
  }

  /** strings.FieldsFunc with every non-word character as a separator. */
  function Fields(s: string): (r: seq<string>)
    ensures forall i :: 0 <= i < |r| ==> r[i] != [] && IsWord(r[i])
    ensures IsLowered(s) ==> forall i :: 0 <= i < |r| ==> IsLowered(r[i])
    decreases |s|
  {
    if s == [] then []
    else if !IsWordChar(s[0]) then Fields(s[1..])
    else
      var n := WordLen(s);
      assert IsLowered(s) ==> IsLowered(s[..n]) && IsLowered(s[n..]);
      [s[..n]] + Fields(s[n..])
  }

  /** A field starts at the first word character and runs to the next
      non-word character. */
  lemma FieldsStep(s: string)
    requires s != []
    ensures !IsWordChar(s[0]) ==> Fields(s) == Fields(s[1..])
    ensures IsWordChar(s[0]) ==> Fields(s) == [s[..WordLen(s)]] + Fields(s[WordLen(s)..])
  {
  }

  /** A run of word characters from offset i that ends at a non-word
      character or at the end is exactly WordLen(s[i..]) long. */
  lemma {:induction false} WordLenRunFrom(s: string, i: nat, b: nat)
    requires i <= b <= |s| && (forall k :: i <= k < b ==> IsWordChar(s[k]))
    requires b == |s| || !IsWordChar(s[b])
    ensures WordLen(s[i..]) == b - i
    decreases b - i
  {
    if i < b {
      assert s[i..][1..] == s[i + 1..];
      WordLenRunFrom(s, i + 1, b);
    }
  }

  /** The run from offset i stops before any non-word character. */
  lemma {:induction false} WordLenStopsFrom(s: string, i: nat, k: nat)
    requires i <= k < |s| && !IsWordChar(s[k])
    ensures WordLen(s[i..]) <= k - i
    decreases k - i
  {
    if i < k && IsWordChar(s[i]) {
      assert s[i..][1..] == s[i + 1..];
      WordLenStopsFrom(s, i + 1, k);
    }
  }

  /** A suffix that starts with a word character starts with a run of at
      least one. */
  lemma WordLenPositive(s: string, i: nat)
    requires i < |s| && IsWordChar(s[i])
    ensures 1 <= WordLen(s[i..])
  {
    assert s[i..][0] == s[i];
  }

  /** A field of what follows the first field of u is a field of u. */
  lemma FieldsTail(u: string, x: string)
    requires u != [] && IsWordChar(u[0]) && x in Fields(u[WordLen(u)..])
    ensures x in Fields(u)
  {
    FieldsStep(u);
  }

  /** FieldsTail for the suffix s[i..], stated with offsets into s. */
  lemma FieldsAfterFirst(s: string, i: nat, x: string)
    requires i < |s| && IsWordChar(s[i])
    requires i + WordLen(s[i..]) <= |s| && x in Fields(s[i + WordLen(s[i..])..])
    ensures x in Fields(s[i..])
  {
    var u := s[i..];
    var n := WordLen(u);
    assert u[n..] == s[i + n..];
    FieldsTail(u, x);
  }

  /** Every maximal run s[a..b] of word characters at or after offset i is
      a field of s[i..]. */
  lemma {:induction false} FieldsFrom(s: string, i: nat, a: nat, b: nat)
    requires i <= a < b <= |s| && (forall k :: a <= k < b ==> IsWordChar(s[k]))
    requires a == i || !IsWordChar(s[a - 1])
    requires b == |s| || !IsWordChar(s[b])
    ensures s[a..b] in Fields(s[i..])
    decreases |s| - i, 1
  {
    if !IsWordChar(s[i]) {
      FieldsSkip(s, i, a, b);
    } else if a == i {
      FieldsHere(s, i, b);
    } else {
      FieldsPast(s, i, a, b);
    }
  }

  /** A separator at offset i is skipped. */
  lemma {:induction false} FieldsSkip(s: string, i: nat, a: nat, b: nat)
    requires i < a < b <= |s| && (forall k :: a <= k < b ==> IsWordChar(s[k]))
    requires !IsWordChar(s[i]) && !IsWordChar(s[a - 1])
    requires b == |s| || !IsWordChar(s[b])
    ensures s[a..b] in Fields(s[i..])
    decreases |s| - i, 0
  {
    FieldsStep(s[i..]);
    assert s[i..][1..] == s[i + 1..];
    FieldsFrom(s, i + 1, a, b);
  }

  /** The run starting at offset i is the first field of s[i..]. */
  lemma FieldsHere(s: string, i: nat, b: nat)
    requires i < b <= |s| && (forall k :: i <= k < b ==> IsWordChar(s[k]))
    requires b == |s| || !IsWordChar(s[b])
    ensures s[i..b] in Fields(s[i..])
  {
    FieldsStep(s[i..]);
    WordLenRunFrom(s, i, b);
    assert s[i..][..b - i] == s[i..b];
  }

  /** A run starting after the field at offset i is a field of the rest. */
  lemma FieldsPast(s: string, i: nat, a: nat, b: nat)
    requires i < a < b <= |s| && (forall k :: a <= k < b ==> IsWordChar(s[k]))
    requires IsWordChar(s[i]) && !IsWordChar(s[a - 1])
    requires b == |s| || !IsWordChar(s[b])
    ensures s[a..b] in Fields(s[i..])
    decreases |s| - i, 0
  {
    WordLenPositive(s, i);
    WordLenStopsFrom(s, i, a - 1);
    var j := i + WordLen(s[i..]);
    FieldsFrom(s, j, a, b);
    FieldsAfterFirst(s, i, s[a..b]);
  }

  /** Fields never splits a run of word characters: every maximal run,
      bounded by non-word characters or the ends of s, is one field. */
  lemma FieldsMaximal(s: string, a: nat, b: nat)
    requires a < b <= |s| && (forall k :: a <= k < b ==> IsWordChar(s[k]))
    requires a == 0 || !IsWordChar(s[a - 1])
    requires b == |s| || !IsWordChar(s[b])
    ensures s[a..b] in Fields(s)
  {
    FieldsFrom(s, 0, a, b);
    assert s[0..] == s;
  }

  function Flatten(ws: seq<string>): string {
    if ws == [] then [] else ws[0] + Flatten(ws[1..])
  }

  function WordChars(s: string): string {
    if s == [] then [] else (if IsWordChar(s[0]) then [s[0]] else []) + WordChars(s[1..])
  }

  lemma {:induction false} WordCharsConcat(a: string, b: string)
    ensures WordChars(a + b) == WordChars(a) + WordChars(b)
  {
    if a != [] {
      assert (a + b)[0] == a[0] && (a + b)[1..] == a[1..] + b;
      WordCharsConcat(a[1..], b);
    } else {
      assert a + b == b;
    }
  }

  lemma {:induction false} WordCharsOfWord(w: string)
    requires IsWord(w)
    ensures WordChars(w) == w
  {
    if w != [] {
      WordCharsOfWord(w[1..]);
    }
  }

  /** No word character is lost between the fields: joined back together
      they are exactly the word characters of the input, in order. */
  lemma {:induction false} FieldsKeepWordChars(s: string)
    ensures Flatten(Fields(s)) == WordChars(s)
    decreases |s|
  {
    if s != [] {
      if !IsWordChar(s[0]) {
        FieldsKeepWordChars(s[1..]);
      } else {
        var n := WordLen(s);
        FieldsKeepWordChars(s[n..]);
        assert s == s[..n] + s[n..];
        WordCharsConcat(s[..n], s[n..]);
        WordCharsOfWord(s[..n]);
      }
    }
  }

  /** The e-mail tokens of a lower-cased user ID: the text between the first
      '<' and the last '>', then its parts before and after the first '@'. */
  function EmailTokens(t: string): seq<string> {
    var lbr := IndexOf(t, '<');
    var rbr := LastIndexOf(t, '>');
    if lbr != -1 && rbr > lbr then AtTokens(t[lbr + 1..rbr]) else []
  }

  /** The e-mail address, then its parts before and after the first '@'. */
  function AtTokens(email: string): seq<string> {
    var at := IndexOf(email, '@');
    [email] + (if at != -1 then [email[..at], email[at + 1..]] else [])
  }

  /** The name tokens of a lower-cased user ID: the fields before the '<'. */
  function NameTokens(t: string): seq<string> {
    var lbr := IndexOf(t, '<');
    if lbr != -1 then Fields(t[..lbr]) else []
  }

  /** The tokens one user ID contributes, in the order keywordsFromKey adds
      them. */
  function UidTokens(keywords: string): seq<string> {
    EmailTokens(Lower(keywords)) + NameTokens(Lower(keywords))
  }

  /** Concatenation of token lists. */
  function ConcatAll(ls: seq<seq<string>>): seq<string> {
    if ls == [] then [] else ConcatAll(ls[..|ls| - 1]) + ls[|ls| - 1]
  }

  function TokenLists(uids: seq<UserID>): (ls: seq<seq<string>>)
    ensures |ls| == |uids|
  {
    seq(|uids|, i requires 0 <= i < |uids| => UidTokens(uids[i].keywords))
  }

  function AllTokens(uids: seq<UserID>): seq<string> {
    ConcatAll(TokenLists(uids))
  }

  /** The tokens with later repetitions dropped. */
  function Dedup(toks: seq<string>): (r: seq<string>)
  {
    if toks == [] then []
    else
      var prefix := Dedup(toks[..|toks| - 1]);
      prefix + (if toks[|toks| - 1] in toks[..|toks| - 1] then [] else [toks[|toks| - 1]])
  }

  lemma {:induction false} DedupMembers(toks: seq<string>)
    ensures forall k :: k in Dedup(toks) <==> k in toks
  {
    if toks != [] {
      DedupMembers(toks[..|toks| - 1]);
      assert toks == toks[..|toks| - 1] + [toks[|toks| - 1]];
    }
  }

  lemma {:induction false} DedupDistinct(toks: seq<string>)
    ensures Distinct(Dedup(toks))
  {
    if toks != [] {
      DedupDistinct(toks[..|toks| - 1]);
      DedupMembers(toks[..|toks| - 1]);
    }
  }

  /** The keyword list of a key, in the order in which the model enumerates
      the set keywordsFromKey builds. */
  function KeywordList(uids: seq<UserID>): seq<string> {
    Dedup(AllTokens(uids))
  }

  lemma {:induction false} ConcatAllMember(ls: seq<seq<string>>, k: string)
    ensures k in ConcatAll(ls) <==> exists i :: 0 <= i < |ls| && k in ls[i]
  {
    if ls != [] {
      var n := |ls| - 1;
      var init := ls[..n];
      ConcatAllMember(init, k);
      if k in ConcatAll(ls) && k in ConcatAll(init) {
        var i :| 0 <= i < |init| && k in init[i];
        assert init[i] == ls[i];
      }
      if exists i :: 0 <= i < |ls| && k in ls[i] {
        var i :| 0 <= i < |ls| && k in ls[i];
        if i < n {
          assert init[i] == ls[i];
        }
      }
    }
  }

  lemma UidTokensSplit(keywords: string)
    ensures UidTokens(keywords) == EmailTokens(Lower(keywords)) + NameTokens(Lower(keywords))
  {
  }

  lemma AllTokensSnoc(uids: seq<UserID>, i: nat)
    requires i < |uids|
    ensures AllTokens(uids[..i + 1]) == AllTokens(uids[..i]) + UidTokens(uids[i].keywords)
  {
    var ls := TokenLists(uids[..i + 1]);
    assert ls[..i] == TokenLists(uids[..i]);
  }

  lemma AllTokensMember(uids: seq<UserID>, k: string)
    ensures k in AllTokens(uids) <==> exists i :: 0 <= i < |uids| && k in UidTokens(uids[i].keywords)
  {
    var ls := TokenLists(uids);
    ConcatAllMember(ls, k);
    assert forall i :: 0 <= i < |uids| ==> ls[i] == UidTokens(uids[i].keywords);
  }

  lemma SliceLowered(t: string, i: nat, j: nat)
    requires IsLowered(t) && i <= j <= |t|
    ensures IsLowered(t[i..j])
  {
    assert forall k :: 0 <= k < j - i ==> t[i..j][k] == t[i + k];
  }

  lemma EmailTokensLowered(t: string)
    requires IsLowered(t)
    ensures forall k :: k in EmailTokens(t) ==> IsLowered(k)
  {
    var lbr := IndexOf(t, '<');
    var rbr := LastIndexOf(t, '>');
    if lbr != -1 && rbr > lbr {
      var email := t[lbr + 1..rbr];
      SliceLowered(t, lbr + 1, rbr);
      var at := IndexOf(email, '@');
      if at != -1 {
        SliceLowered(email, 0, at);
        SliceLowered(email, at + 1, |email|);
        assert email[..at] == email[0..at] && email[at + 1..] == email[at + 1..|email|];
        assert EmailTokens(t) == [email, email[..at], email[at + 1..]];
      } else {
        assert EmailTokens(t) == [email];
      }
    } else {
      assert EmailTokens(t) == [];
    }
  }

  lemma UidTokensLowered(keywords: string)
    ensures forall k :: k in UidTokens(keywords) ==> IsLowered(k)
  {
    var t := Lower(keywords);
    LowerIsLowered(keywords);
    EmailTokensLowered(t);
    var lbr := IndexOf(t, '<');
    if lbr != -1 {
      SliceLowered(t, 0, lbr);
      assert t[..lbr] == t[0..lbr];
    }
  }

  /** Every keyword is lower case, no keyword is listed twice, and the list
      holds exactly the tokens of the user IDs. */
  lemma KeywordListSpec(uids: seq<UserID>)
    ensures Distinct(KeywordList(uids))
    ensures forall k :: k in KeywordList(uids) ==> IsLowered(k)
    ensures forall k :: k in KeywordList(uids) <==>
      exists i :: 0 <= i < |uids| && k in UidTokens(uids[i].keywords)
  {
    DedupDistinct(AllTokens(uids));
    DedupMembers(AllTokens(uids));
    forall k ensures k in KeywordList(uids) <==> exists i :: 0 <= i < |uids| && k in UidTokens(uids[i].keywords) {
      AllTokensMember(uids, k);
    }
    forall k | k in KeywordList(uids) ensures IsLowered(k) {
      AllTokensMember(uids, k);
      var i :| 0 <= i < |uids| && k in UidTokens(uids[i].keywords);
      UidTokensLowered(uids[i].keywords);
    }
  }

  /** What one user ID contributes, stated through the positions of the
      brackets: the text between the first '<' and the last '>' (when the
      '<' comes first) and its parts around the first '@'; name tokens only
      from the text before the '<'; nothing at all without a '<'. */
  lemma UidTokensSpec(keywords: string, lbr: nat, rbr: nat)
    requires var t := Lower(keywords);
      lbr < rbr < |t| && t[lbr] == '<' && '<' !in t[..lbr] && t[rbr] == '>' && '>' !in t[rbr + 1..]
    ensures var email := Lower(keywords)[lbr + 1..rbr];
      email in UidTokens(keywords) &&
      forall a :: 0 <= a < |email| && email[a] == '@' && '@' !in email[..a] ==>
        email[..a] in UidTokens(keywords) && email[a + 1..] in UidTokens(keywords)
    ensures forall w :: w in Fields(Lower(keywords)[..lbr]) ==> w in UidTokens(keywords)
  {
    var t := Lower(keywords);
    IndexOfIs(t, '<', lbr);
    LastIndexOfIs(t, '>', rbr);
    var email := t[lbr + 1..rbr];
    forall a | 0 <= a < |email| && email[a] == '@' && '@' !in email[..a]
      ensures email[..a] in UidTokens(keywords) && email[a + 1..] in UidTokens(keywords)
    {
      IndexOfIs(email, '@', a);
    }
  }

  /** Name tokens need only the '<': every field of the text before the
      first '<' is a token, whether or not a '>' follows. */
  lemma NameTokensSpec(keywords: string, lbr: nat)
    requires var t := Lower(keywords); lbr < |t| && t[lbr] == '<' && '<' !in t[..lbr]
    ensures forall w :: w in Fields(Lower(keywords)[..lbr]) ==> w in UidTokens(keywords)
  {
    IndexOfIs(Lower(keywords), '<', lbr);
  }

  lemma NoBracketNoTokens(keywords: string)
    requires '<' !in Lower(keywords)
    ensures UidTokens(keywords) == []
  {
    IndexOfNone(Lower(keywords), '<');
  }

  lemma SliceOfSlice(t: string, i: nat, j: nat, a: nat, b: nat)
    requires i <= j <= |t| && a <= b <= j - i
    ensures t[i..j][a..b] == t[i + a..i + b]
  {
    assert forall x :: 0 <= x < b - a ==> t[i..j][a..b][x] == t[i + a + x];
  }

  /** Each token of an address is a piece of it. */
  lemma AtTokensShape(email: string, k: string) returns (a: nat, b: nat)
    requires k in AtTokens(email)
    ensures a <= b <= |email| && k == email[a..b]
  {
    var at := IndexOf(email, '@');
    var toks := AtTokens(email);
    var n :| 0 <= n < |toks| && toks[n] == k;
    a, b := 0, |email|;
    if n > 0 {
      assert at != -1 && toks == [email, email[..at], email[at + 1..]];
      if n == 1 {
        b := at;
      } else {
        a := at + 1;
      }
    }
  }

  /** An e-mail token is a piece of the text strictly between the first '<'
      and the last '>'. */
  lemma EmailTokensShape(t: string, k: string)
    requires k in EmailTokens(t)
    ensures var lbr := IndexOf(t, '<');
      lbr != -1 && exists i, j :: lbr + 1 <= i <= j <= LastIndexOf(t, '>') && k == t[i..j]
  {
    EmailTokensAddress(t, k);
    AddressPiece(t, IndexOf(t, '<'), LastIndexOf(t, '>'), k);
  }

  /** A token of the address t[lbr + 1..rbr] is a piece of t inside it. */
  lemma AddressPiece(t: string, lbr: nat, rbr: nat, k: string)
    requires lbr < rbr < |t| && k in AtTokens(t[lbr + 1..rbr])
    ensures exists i, j :: lbr + 1 <= i <= j <= rbr && k == t[i..j]
  {
    var a, b := AtTokensShape(t[lbr + 1..rbr], k);
    SliceOfSlice(t, lbr + 1, rbr, a, b);
    var i, j := lbr + 1 + a, lbr + 1 + b;
    assert lbr + 1 <= i <= j <= rbr && k == t[i..j];
  }

  /** An e-mail token is a token of the address between the brackets. */
  lemma EmailTokensAddress(t: string, k: string)
    requires k in EmailTokens(t)
    ensures var lbr, rbr := IndexOf(t, '<'), LastIndexOf(t, '>');
      lbr != -1 && rbr > lbr && k in AtTokens(t[lbr + 1..rbr])
  {
  }

  /** Every token is either a name token (a non-empty run of letters, digits
      and '-') of the text before the first '<', or a piece of the text
      strictly between that '<' and the last '>': the whole address, or its
      part before or after the first '@'. A user ID without '<' contributes
      nothing. */
  lemma UidTokensShape(keywords: string, k: string)
    requires k in UidTokens(keywords)
    ensures var t := Lower(keywords); var lbr := IndexOf(t, '<');
      lbr != -1 &&
      ((k in Fields(t[..lbr]) && k != [] && IsWord(k)) ||
       exists i, j :: lbr + 1 <= i <= j <= LastIndexOf(t, '>') && k == t[i..j])
    ensures var t := Lower(keywords); var lbr, rbr := IndexOf(t, '<'), LastIndexOf(t, '>');
      lbr != -1 &&
      (k in Fields(t[..lbr]) ||
       (lbr < rbr &&
        var email := t[lbr + 1..rbr]; var at := IndexOf(email, '@');
        (k == email || (at != -1 && (k == email[..at] || k == email[at + 1..])))))
  {
    var t := Lower(keywords);
    assert k in EmailTokens(t) || k in NameTokens(t);
    if k in EmailTokens(t) {
      EmailTokensShape(t, k);
      EmailTokensAddress(t, k);
    } else {
      var lbr := IndexOf(t, '<');
      assert lbr != -1 && k in Fields(t[..lbr]);
    }
  }

  lemma DedupSnoc(toks: seq<string>, x: string)
    ensures Dedup(toks + [x]) == Dedup(toks) + (if x in toks then [] else [x])
  {
    assert (toks + [x])[..|toks|] == toks;
  }

  /** m[x] = true, with the map's enumeration order kept beside it. */
  method Put(m: set<string>, order: seq<string>, ghost acc: seq<string>, x: string)
    returns (m': set<string>, order': seq<string>)
    requires order == Dedup(acc) && forall k :: k in m <==> k in acc
    ensures order' == Dedup(acc + [x]) && forall k :: k in m' <==> k in acc + [x]
  {
    DedupSnoc(acc, x);
    if x in m {
      m', order' := m, order;
    } else {
      m', order' := m + {x}, order + [x];
    }
  }

  /** The e-mail part of the loop body of keywordsFromKey. */
  method PutEmail(m: set<string>, order: seq<string>, ghost acc: seq<string>, s: string)
    returns (m': set<string>, order': seq<string>)
    requires order == Dedup(acc) && forall k :: k in m <==> k in acc
    ensures order' == Dedup(acc + EmailTokens(s)) && forall k :: k in m' <==> k in acc + EmailTokens(s)
  {
    m', order' := m, order;
    ghost var e := EmailTokens(s);
    var lbr, rbr := IndexOf(s, '<'), LastIndexOf(s, '>');
    if lbr != -1 && rbr > lbr {
      var email := s[lbr + 1..rbr];
      m', order' := Put(m', order', acc, email);
      var at := IndexOf(email, '@');
      if at != -1 {
        var username, domain := email[..at], email[at + 1..];
        assert e == [email, username, domain];
        m', order' := Put(m', order', acc + [email], username);
        m', order' := Put(m', order', acc + [email] + [username], domain);
        assert acc + [email] + [username] + [domain] == acc + e;
      } else {
        assert e == [email];
      }
    } else {
      assert e == [];
      assert acc + e == acc;
    }
  }

  /** The name-token part of the loop body of keywordsFromKey. */
  method PutNames(m: set<string>, order: seq<string>, ghost acc: seq<string>, s: string)
    returns (m': set<string>, order': seq<string>)
    requires order == Dedup(acc) && forall k :: k in m <==> k in acc
    ensures order' == Dedup(acc + NameTokens(s)) && forall k :: k in m' <==> k in acc + NameTokens(s)
  {
    m', order' := m, order;
    var lbr := IndexOf(s, '<');
    if lbr != -1 {
      var fields := Fields(s[..lbr]);
      assert acc + fields[..0] == acc;
      for j := 0 to |fields|
        invariant order' == Dedup(acc + fields[..j]) && forall k :: k in m' <==> k in acc + fields[..j]
      {
        m', order' := Put(m', order', acc + fields[..j], fields[j]);
        PrefixSnoc(acc, fields, j);
      }
      assert fields[..|fields|] == fields;
    } else {
      assert acc + NameTokens(s) == acc;
    }
  }

  /** One more element of ws, appended after acc. */
  lemma PrefixSnoc(acc: seq<string>, ws: seq<string>, j: nat)
    requires j < |ws|
    ensures acc + ws[..j + 1] == acc + ws[..j] + [ws[j]]
  {
    assert ws[..j + 1] == ws[..j] + [ws[j]];
  }

  /** keywordsFromKey: fills a set with the tokens of every user ID and
      returns its members. */
  method KeywordsFromKey(uids: seq<UserID>) returns (result: seq<string>)
    ensures result == KeywordList(uids)
    ensures Distinct(result)
  {
    var m: set<string> := {};
    var order: seq<string> := [];
    ghost var acc: seq<string> := [];
    assert AllTokens(uids[..0]) == [];
    for i := 0 to |uids|
      invariant acc == AllTokens(uids[..i])
      invariant order == Dedup(acc) && forall k :: k in m <==> k in acc
    {
      var s := Lower(uids[i].keywords);
      ghost var e, n := EmailTokens(s), NameTokens(s);
      m, order := PutEmail(m, order, acc, s);
      m, order := PutNames(m, order, acc + e, s);
      AllTokensSnoc(uids, i);
      UidTokensSplit(uids[i].keywords);
      AppendAssoc(acc, e, n);
      acc := acc + e + n;
    }
    assert uids[..|uids|] == uids;
    result := order;
    DedupDistinct(AllTokens(uids));
  }

  /** keywordsTSVector: the tsvector text of a key, or "" when the keywords
      exceed a limit (the key is then stored without a keyword index). */
  function KeywordsTSVector(uids: seq<UserID>): (r: string)
    ensures r == "" || r == Join(KeywordList(uids), Separator)
    ensures KeywordsToTSVector(KeywordList(uids)).Err? ==> r == ""
    ensures KeywordsToTSVector(KeywordList(uids)).Ok? ==> r == Join(KeywordList(uids), Separator)
  {
    match KeywordsToTSVector(KeywordList(uids))
    case Ok(tsv) => tsv
    case Err(_) => ""
  }
}
