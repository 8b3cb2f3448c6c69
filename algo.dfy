/** `common::utils::algo`: map lookups with a fallback, and ASCII case conversion. */
module Algo {
  import opened Wrappers

  /** `GetOrDefault`: the value stored under the key, or the default when there is none. */
  function GetOrDefault<K, V>(m: map<K, V>, key: K, default: V): (r: V)
    ensures key in m ==> r == m[key]
    ensures key !in m ==> r == default
  {
    if key in m then m[key] else default
  }

  /** `GetOptional`: the value stored under the key, or nothing. */
  function GetOptional<K, V>(m: map<K, V>, key: K): (r: Option<V>)
    ensures r.Some? <==> key in m
    ensures r.Some? ==> r.value == m[key]
  {
    if key in m then Some(m[key]) else None
  }

  /** The two lookups agree: the default stands in exactly for the missing value. */
  lemma GetOrDefaultIsGetOptional<K, V>(m: map<K, V>, key: K, default: V)
    ensures GetOrDefault(m, key, default) == (match GetOptional(m, key) case Some(v) => v case None => default)
  {
  }

  /** A lookup after storing `v` under `key` finds `v` there and sees the old map at every
      other key; nothing is found in an empty map or under a removed key. */
  lemma GetOptionalLaws<K, V>(m: map<K, V>, key: K, v: V, other: K)
    ensures GetOptional(m[key := v], key) == Some(v)
    ensures other != key ==> GetOptional(m[key := v], other) == GetOptional(m, other)
    ensures GetOptional(m - {key}, key) == None
    ensures GetOptional<K, V>(map[], key) == None
  {
  }

  /** The same laws for the lookup with a fallback: the default is returned exactly where
      nothing is stored. */
  lemma GetOrDefaultLaws<K, V>(m: map<K, V>, key: K, v: V, other: K, default: V)
    ensures GetOrDefault(m[key := v], key, default) == v
    ensures other != key ==> GetOrDefault(m[key := v], other, default) == GetOrDefault(m, other, default)
    ensures GetOrDefault(m - {key}, key, default) == default
    ensures GetOrDefault<K, V>(map[], key, default) == default
  {
  }

  predicate IsUpper(c: char) { 'A' <= c <= 'Z' }
  predicate IsLower(c: char) { 'a' <= c <= 'z' }

  /** `std::tolower` in the "C" locale: upper-case ASCII letters become lower-case, every
      other character is kept. */
  function CharToLower(c: char): (r: char)
    ensures IsUpper(c) ==> IsLower(r) && r as int == c as int + 32
    ensures !IsUpper(c) ==> r == c
  {
    if IsUpper(c) then (c as int + 32) as char else c
  }

  /** `std::toupper` in the "C" locale. */
  function CharToUpper(c: char): (r: char)
    ensures IsLower(c) ==> IsUpper(r) && r as int == c as int - 32
    ensures !IsLower(c) ==> r == c
  {
    if IsLower(c) then (c as int - 32) as char else c
  }

  /** `ToLower`: each character converted on its own, the length kept. */
  function ToLower(s: string): (r: string)
    ensures |r| == |s|
    ensures forall i :: 0 <= i < |s| ==> r[i] == CharToLower(s[i])
    decreases |s|
  {
    if s == [] then [] else [CharToLower(s[0])] + ToLower(s[1..])
  }

  /** `ToUpper`: each character converted on its own, the length kept. */
  function ToUpper(s: string): (r: string)
    ensures |r| == |s|
    ensures forall i :: 0 <= i < |s| ==> r[i] == CharToUpper(s[i])
    decreases |s|
  {
    if s == [] then [] else [CharToUpper(s[0])] + ToUpper(s[1..])
  }

  /** A lowered string has no upper-case letter and lowering it again changes nothing;
      only upper-case letters are changed. */
  lemma ToLowerMeaning(s: string)
    ensures forall i :: 0 <= i < |s| ==> !IsUpper(ToLower(s)[i])
    ensures ToLower(ToLower(s)) == ToLower(s)
    ensures (forall i :: 0 <= i < |s| ==> !IsUpper(s[i])) <==> ToLower(s) == s
  {
    if ToLower(s) == s {
      forall i | 0 <= i < |s|
        ensures !IsUpper(s[i])
      {
        assert ToLower(s)[i] == s[i];
      }
    }
  }

  /** An upper-cased string has no lower-case letter and upper-casing it again changes
      nothing; only lower-case letters are changed. */
  lemma ToUpperMeaning(s: string)
    ensures forall i :: 0 <= i < |s| ==> !IsLower(ToUpper(s)[i])
    ensures ToUpper(ToUpper(s)) == ToUpper(s)
    ensures (forall i :: 0 <= i < |s| ==> !IsLower(s[i])) <==> ToUpper(s) == s
  {
    if ToUpper(s) == s {
      forall i | 0 <= i < |s|
        ensures !IsLower(s[i])
      {
        assert ToUpper(s)[i] == s[i];
      }
    }
  }

  /** The two conversions only ever change the case of a letter: converting back gives the
      same text as converting directly. */
  lemma CaseRoundTrip(s: string)
    ensures ToLower(ToUpper(s)) == ToLower(s)
    ensures ToUpper(ToLower(s)) == ToUpper(s)
  {
  }

  /** From the tests: upper-case letters are lowered, the dash and the digits are kept. */
  lemma ToLowerExample()
    ensures ToLower("sOme StRinG-123") == "some string-123"
  {
    hide ToLower;
    var s, t := "sOme StRinG-123", "some string-123";
    forall i | 0 <= i < |s|
      ensures ToLower(s)[i] == t[i]
    {
    }
  }

  /** From the tests: lower-case letters are raised, the dash and the digits are kept. */
  lemma ToUpperExample()
    ensures ToUpper("sOme StRinG-123") == "SOME STRING-123"
  {
    hide ToUpper;
    var s, t := "sOme StRinG-123", "SOME STRING-123";
    forall i | 0 <= i < |s|
      ensures ToUpper(s)[i] == t[i]
    {
    }
  }
}
