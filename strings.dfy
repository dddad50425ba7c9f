/**
 * String helpers: substring search (std::string::find / rfind), the
 * replace-all loop, character counting, cutting at a delimiter, and the
 * UTF-8 lead-byte classifier with the character reader built on it.
 */
module Strings {
  import opened Wrappers

  /** p occurs in s starting at index k. */
  predicate OccursAt<T(==)>(s: seq<T>, p: seq<T>, k: int)
  {
    0 <= k && k + |p| <= |s| && s[k..k + |p|] == p
  }

  /** The first occurrence of p in s at or after `from`. */
  function FindFrom<T(==)>(s: seq<T>, p: seq<T>, from: nat): (r: Option<nat>)
    ensures r.Some? ==> from <= r.value && OccursAt(s, p, r.value)
    ensures r.Some? ==> forall k :: from <= k < r.value ==> !OccursAt(s, p, k)
    ensures r.None? ==> forall k :: from <= k ==> !OccursAt(s, p, k)
    decreases |s| - from
  {
    if from + |p| > |s| then None
    else if s[from..from + |p|] == p then Some(from)
    else FindFrom(s, p, from + 1)
  }

  /** std::string::find: the first occurrence of p, or none (npos). */
  function Find<T(==)>(s: seq<T>, p: seq<T>): (r: Option<nat>)
    ensures r.Some? ==> OccursAt(s, p, r.value) && forall k :: 0 <= k < r.value ==> !OccursAt(s, p, k)
    ensures r.None? <==> forall k :: !OccursAt(s, p, k)
  {
    FindFrom(s, p, 0)
  }

  /** The last occurrence of p in s at or before `upto`. */
  function RFindUpto<T(==)>(s: seq<T>, p: seq<T>, upto: int): (r: Option<nat>)
    ensures r.Some? ==> r.value <= upto && OccursAt(s, p, r.value)
    ensures r.Some? ==> forall k :: r.value < k <= upto ==> !OccursAt(s, p, k)
    ensures r.None? ==> forall k :: k <= upto ==> !OccursAt(s, p, k)
    decreases upto + 1
  {
    if upto < 0 then None
    else if OccursAt(s, p, upto) then Some(upto)
    else RFindUpto(s, p, upto - 1)
  }

  /** std::string::rfind: the last occurrence of p, or none (npos). */
  function RFind<T(==)>(s: seq<T>, p: seq<T>): (r: Option<nat>)
    ensures r.Some? ==> OccursAt(s, p, r.value) && forall k :: r.value < k ==> !OccursAt(s, p, k)
    ensures r.None? <==> forall k :: !OccursAt(s, p, k)
  {
    RFindUpto(s, p, |s| - |p|)
  }

  /**
   * The result of string_replace: occurrences of `from` found left to
   * right, each replaced by `to`, scanning resumes after the replaced text.
   */
  function ReplaceAll<T(==)>(s: seq<T>, from: seq<T>, to: seq<T>): seq<T>
    requires |from| > 0
    decreases |s|
  {
    match Find(s, from)
    case None => s
    case Some(k) => s[..k] + to + ReplaceAll(s[k + |from|..], from, to)
  }

  /**
   * string_replace: moves text from `remaining` to `done` one occurrence at
   * a time. With an empty pattern the source loops forever, so the model
   * requires a non-empty one.
   */
  method StringReplace<T(==)>(s: seq<T>, from: seq<T>, to: seq<T>) returns (r: seq<T>)
    requires |from| > 0
    ensures r == ReplaceAll(s, from, to)
  {
    var remaining := s;
    var done := [];
    while true
      invariant done + ReplaceAll(remaining, from, to) == ReplaceAll(s, from, to)
      decreases |remaining|
    {
      var next := Find(remaining, from);
      if next.None? {
        ReplaceAllNone(remaining, from, to);
        return done + remaining;
      }
      ReplaceAllAt(remaining, from, to);
      var rest := remaining[next.value + |from|..];
      ghost var replacedRest := ReplaceAll(rest, from, to);
      AppendRegroup(done, remaining[..next.value], to, replacedRest);
      done := done + remaining[..next.value] + to;
      remaining := rest;
    }
  }

  lemma AppendRegroup<T>(a: seq<T>, b: seq<T>, c: seq<T>, d: seq<T>)
    ensures a + (b + c + d) == a + b + c + d
  {
  }

  /** Without an occurrence, ReplaceAll returns the text as it is. */
  lemma ReplaceAllNone<T>(s: seq<T>, from: seq<T>, to: seq<T>)
    requires |from| > 0 && Find(s, from).None?
    ensures ReplaceAll(s, from, to) == s
  {
  }

  /** With a first occurrence at k, ReplaceAll replaces it and continues after it. */
  lemma ReplaceAllAt<T>(s: seq<T>, from: seq<T>, to: seq<T>)
    requires |from| > 0 && Find(s, from).Some?
    ensures ReplaceAll(s, from, to) == s[..Find(s, from).value] + to + ReplaceAll(s[Find(s, from).value + |from|..], from, to)
  {
  }

  /** Without an occurrence of the pattern the string comes back unchanged. */
  lemma ReplaceAllNoOccurrence<T>(s: seq<T>, from: seq<T>, to: seq<T>)
    requires |from| > 0 && forall k :: !OccursAt(s, from, k)
    ensures ReplaceAll(s, from, to) == s
  {
    var f := Find(s, from);
  }

  /** Replacing a pattern by itself changes nothing. */
  lemma {:induction false} ReplaceAllSelf<T>(s: seq<T>, from: seq<T>)
    requires |from| > 0
    ensures ReplaceAll(s, from, from) == s
    decreases |s|
  {
    match Find(s, from)
    case None =>
    case Some(k) =>
      ReplaceAllSelf(s[k + |from|..], from);
      assert s[k..k + |from|] == from;
      assert s == s[..k] + s[k..k + |from|] + s[k + |from|..];
  }

  /** The cases of TEST_string_replace. */
  lemma ReplaceAllExample1()
    ensures ReplaceAll("abca", "a", "d") == "dbcd"
  {
    assert OccursAt("abca", "a", 0);
    assert "abca"[1..] == "bca";
    assert "bca"[0..1][0] == 'b' && "bca"[1..2][0] == 'c';
    assert !OccursAt("bca", "a", 0) && !OccursAt("bca", "a", 1) && OccursAt("bca", "a", 2);
    assert "bca"[3..] == [];
    assert ReplaceAll([], "a", "d") == [];
    assert ReplaceAll("bca", "a", "d") == "bcd";
  }

  lemma ReplaceAllExample2()
    ensures ReplaceAll("abcab", "ab", "d") == "dcd"
  {
    assert OccursAt("abcab", "ab", 0);
    assert "abcab"[2..] == "cab";
    assert "cab"[0..2][0] == 'c';
    assert !OccursAt("cab", "ab", 0) && OccursAt("cab", "ab", 1);
    assert "cab"[3..] == [];
    assert ReplaceAll([], "ab", "d") == [];
    assert ReplaceAll("cab", "ab", "d") == "cd";
  }

  lemma ReplaceAllExample3()
    ensures ReplaceAll("aaaaa", "aa", "a") == "aaa"
  {
    assert OccursAt("aaaaa", "aa", 0);
    assert "aaaaa"[2..] == "aaa";
    assert OccursAt("aaa", "aa", 0);
    assert "aaa"[2..] == "a";
    assert Find("a", "aa") == None;
    assert ReplaceAll("aaa", "aa", "a") == "aa";
  }

  /** count_char_in_string (std::count). */
  function CountChar(s: string, c: char): (r: nat)
    ensures r == multiset(s)[c]
  {
    if |s| == 0 then 0
    else
      assert s == [s[0]] + s[1..];
      (if s[0] == c then 1 else 0) + CountChar(s[1..], c)
  }

  /** cut_off_after_find: the text before the first delimiter, or all of it. */
  function CutOffAfterFind<T(==)>(s: seq<T>, delimiter: seq<T>): (r: seq<T>)
    ensures r <= s
    ensures |delimiter| > 0 ==> forall k :: !OccursAt(r, delimiter, k)
    ensures |delimiter| > 0 ==> ((forall k :: !OccursAt(s, delimiter, k)) <==> r == s)
    ensures r != s ==> OccursAt(s, delimiter, |r|)
  {
    match Find(s, delimiter)
    case None => s
    case Some(k) =>
      assert |delimiter| > 0 ==> forall j :: !OccursAt(s[..k], delimiter, j) by {
        forall j | |delimiter| > 0 && OccursAt(s[..k], delimiter, j)
          ensures false
        {
          assert s[..k][j..j + |delimiter|] == s[j..j + |delimiter|];
          assert OccursAt(s, delimiter, j) && j < k;
        }
      }
      s[..k]
  }

  /** Cutting twice is cutting once. */
  lemma CutOffAfterFindIdempotent<T>(s: seq<T>, delimiter: seq<T>)
    ensures CutOffAfterFind(CutOffAfterFind(s, delimiter), delimiter) == CutOffAfterFind(s, delimiter)
  {
    var r := CutOffAfterFind(s, delimiter);
    if |delimiter| == 0 {
      assert OccursAt(s, delimiter, 0);
      assert r == [];
    }
  }

  /** cut_off_after_rfind: the text before the last delimiter, or all of it. */
  function CutOffAfterRFind<T(==)>(s: seq<T>, delimiter: seq<T>): (r: seq<T>)
    ensures r <= s
    ensures |delimiter| > 0 ==> ((forall k :: !OccursAt(s, delimiter, k)) <==> r == s)
    ensures r != s ==> OccursAt(s, delimiter, |r|) && forall k :: |r| < k ==> !OccursAt(s, delimiter, k)
  {
    match RFind(s, delimiter)
    case None => s
    case Some(k) => s[..k]
  }

  /** A byte of a std::string. */
  type Byte = bv8

  /** is_utf8_ascii_char: bit 7 clear. */
  predicate IsUtf8AsciiChar(c: Byte) { c & 0x80 == 0 }

  /** is_utf8_two_byte_char: bit 5 clear. */
  predicate IsUtf8TwoByteChar(c: Byte) { c & 0x20 == 0 }

  /** is_utf8_three_byte_char: bit 4 clear. */
  predicate IsUtf8ThreeByteChar(c: Byte) { c & 0x10 == 0 }

  /** is_utf8_four_byte_char: bit 3 clear. */
  predicate IsUtf8FourByteChar(c: Byte) { c & 0x08 == 0 }

  /** get_utf8_letter_size: the first test that holds decides; -1 for none. */
  function Utf8LetterSize(c: Byte): int
  {
    if IsUtf8AsciiChar(c) then 1
    else if IsUtf8TwoByteChar(c) then 2
    else if IsUtf8ThreeByteChar(c) then 3
    else if IsUtf8FourByteChar(c) then 4
    else -1
  }

  /**
   * On lead bytes the size is the sequence length of section 3 of RFC 3629
   * (0xxxxxxx, 110xxxxx, 1110xxxx, 11110xxx), and 11111xxx is refused.
   */
  lemma Utf8LetterSizeOnLeadBytes(c: Byte)
    ensures c < 0x80 ==> Utf8LetterSize(c) == 1
    ensures 0xC0 <= c < 0xE0 ==> Utf8LetterSize(c) == 2
    ensures 0xE0 <= c < 0xF0 ==> Utf8LetterSize(c) == 3
    ensures 0xF0 <= c < 0xF8 ==> Utf8LetterSize(c) == 4
    ensures 0xF8 <= c ==> Utf8LetterSize(c) == -1
  {
  }

  /**
   * A continuation byte (10xxxxxx) is not refused: it is sized by the same
   * bits 5, 4 and 3 as a lead byte.
   */
  lemma Utf8LetterSizeOnContinuationBytes(c: Byte)
    requires 0x80 <= c < 0xC0
    ensures Utf8LetterSize(c) == (if c < 0xA0 then 2 else if c < 0xB0 then 3 else if c < 0xB8 then 4 else -1)
  {
  }

  /**
   * get_next_utf8_char: reads the lead byte at `index` (the terminating
   * zero when index == |s|), takes that many bytes (fewer at the end of the
   * string, as substr does) and advances the index by the size. An invalid
   * lead byte throws.
   */
  function GetNextUtf8Char(s: seq<Byte>, index: nat): (r: Result<(seq<Byte>, nat)>)
    requires index <= |s|
    ensures r.Success? ==> r.value.0 <= s[index..] && 1 <= |r.value.0| + (if index == |s| then 1 else 0)
    ensures r.Success? ==> r.value.1 == index + Utf8LetterSize(if index < |s| then s[index] else 0)
    ensures r.Success? && index < |s| ==> r.value.0[0] == s[index]
    ensures r.Success? ==> index < r.value.1 && r.value.0 == s[index..if r.value.1 <= |s| then r.value.1 else |s|]
    ensures r.Failure? <==> index < |s| && Utf8LetterSize(s[index]) == -1
  {
    var lead := if index < |s| then s[index] else 0;
    var size := Utf8LetterSize(lead);
    if size == -1 then Failure("Error when fetching utf8, invalid character!")
    else
      var end := if index + size <= |s| then index + size else |s|;
      Success((s[index..end], (index + size) as nat))
  }

  /** The letter read and the rest of the string from the next index make up the string from index on. */
  lemma Utf8LetterThenRest(s: seq<Byte>, index: nat)
    requires index < |s| && GetNextUtf8Char(s, index).Success?
    ensures var next := GetNextUtf8Char(s, index).value.1;
      GetNextUtf8Char(s, index).value.0 + s[if next <= |s| then next else |s|..] == s[index..]
  {
    var next := GetNextUtf8Char(s, index).value.1;
    var end := if next <= |s| then next else |s|;
    assert s[index..end] + s[end..] == s[index..];
  }

  /** TEST_get_next_utf8_char: "z", "ß", "水" and the banana emoji, read in sequence. */
  lemma GetNextUtf8CharExample()
    ensures var s: seq<Byte> := [0x7A, 0xC3, 0x9F, 0xE6, 0xB0, 0xB4, 0xF0, 0x9F, 0x8D, 0x8C];
      GetNextUtf8Char(s, 0) == Success(([0x7A], 1)) &&
      GetNextUtf8Char(s, 1) == Success(([0xC3, 0x9F], 3)) &&
      GetNextUtf8Char(s, 3) == Success(([0xE6, 0xB0, 0xB4], 6)) &&
      GetNextUtf8Char(s, 6) == Success(([0xF0, 0x9F, 0x8D, 0x8C], 10))
  {
    var s: seq<Byte> := [0x7A, 0xC3, 0x9F, 0xE6, 0xB0, 0xB4, 0xF0, 0x9F, 0x8D, 0x8C];
    assert s[0..1] == [0x7A];
    assert s[1..3] == [0xC3, 0x9F];
    assert s[3..6] == [0xE6, 0xB0, 0xB4];
    assert s[6..10] == [0xF0, 0x9F, 0x8D, 0x8C];
  }

  // ---- std::to_string on non-negative integers ----

  /** The decimal digit character for d. */
  function DigitChar(d: nat): (c: char)
    requires d < 10
    ensures '0' <= c <= '9' && c as int - '0' as int == d
  {
    (d + '0' as int) as char
  }

  predicate IsDigits(s: string)
  {
    forall i :: 0 <= i < |s| ==> '0' <= s[i] <= '9'
  }

  /** std::to_string of a non-negative integer: its decimal digits, most significant first, no leading zero. */
  function DecimalString(n: nat): (r: string)
    ensures |r| >= 1 && IsDigits(r)
    ensures |r| > 1 ==> r[0] != '0'
  {
    if n < 10 then [DigitChar(n)] else DecimalString(n / 10) + [DigitChar(n % 10)]
  }

  /** The number a string of decimal digits spells. */
  function DecimalValue(s: string): nat
    requires IsDigits(s)
  {
    if |s| == 0 then 0
    else DecimalValue(s[..|s| - 1]) * 10 + (s[|s| - 1] as int - '0' as int)
  }

  /** Reading back the decimal string gives the number. */
  lemma {:induction false} DecimalRoundTrip(n: nat)
    ensures DecimalValue(DecimalString(n)) == n
  {
    var r := DecimalString(n);
    if n >= 10 {
      DecimalRoundTrip(n / 10);
      assert r[..|r| - 1] == DecimalString(n / 10);
    } else {
      assert r[..|r| - 1] == [];
    }
  }

  /** Different numbers have different decimal strings. */
  lemma DecimalStringInjective(a: nat, b: nat)
    ensures DecimalString(a) == DecimalString(b) ==> a == b
  {
    DecimalRoundTrip(a);
    DecimalRoundTrip(b);
  }

  /** std::to_string('a') is "97". */
  lemma DecimalStringExample()
    ensures DecimalString('a' as int) == "97"
  {
  }
}
