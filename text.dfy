/** The two string searches the utilities use: `std::find` of a character, which returns the
    end position when there is no match, and `std::string::find` of a substring, which
    returns `npos` (here `None`). */
module Text {
  import opened Wrappers

  /** `std::find(s.begin() + from, s.end(), c)`, as an index: the first `c` at or after
      `from`, or `|s|` when there is none. */
  function FindChar(s: string, c: char, from: nat): (i: nat)
    requires from <= |s|
    ensures from <= i <= |s|
    ensures i < |s| ==> s[i] == c
    ensures forall j :: from <= j < i ==> s[j] != c
    decreases |s| - from
  {
    if from == |s| || s[from] == c then from else FindChar(s, c, from + 1)
  }

  /** Any index with the three properties of `FindChar` is its result. */
  lemma FindCharUnique(s: string, c: char, from: nat, i: nat)
    requires from <= i <= |s|
    requires i < |s| ==> s[i] == c
    requires forall j :: from <= j < i ==> s[j] != c
    ensures FindChar(s, c, from) == i
  {
  }

  /** Searching from the start of a word free of `c` stops right after the word, at a `c`
      or at the end. */
  lemma FindAfterWord(url: string, from: nat, word: string, c: char, tail: string)
    requires from <= |url| && url[from..] == word + tail && c !in word
    requires tail != [] ==> tail[0] == c
    ensures FindChar(url, c, from) == from + |word|
    ensures url[from..from + |word|] == word && url[from + |word|..] == tail
  {
    forall j | from <= j < from + |word|
      ensures url[j] != c
    {
      assert url[j] == url[from..][j - from] == word[j - from];
    }
    assert url[from..][..|word|] == word;
    assert url[from..][|word|..] == tail;
    FindCharUnique(url, c, from, from + |word|);
  }

  /** `pattern` occurs in `s` starting at `i`. */
  predicate OccursAt(s: string, pattern: string, i: nat) {
    i + |pattern| <= |s| && s[i..i + |pattern|] == pattern
  }

  /** `s.find(pattern, from)`: the leftmost occurrence starting at or after `from`. */
  function FindSub(s: string, pattern: string, from: nat): (r: Option<nat>)
    ensures r.Some? ==> from <= r.value && OccursAt(s, pattern, r.value)
    ensures r.Some? ==> forall j :: from <= j < r.value ==> !OccursAt(s, pattern, j)
    ensures r.None? ==> forall j :: from <= j ==> !OccursAt(s, pattern, j)
    decreases |s| + 1 - from
  {
    if from + |pattern| > |s| then None
    else if s[from..from + |pattern|] == pattern then Some(from)
    else FindSub(s, pattern, from + 1)
  }

  /** Any leftmost occurrence, or the absence of one, is what `FindSub` reports. */
  lemma FindSubUnique(s: string, pattern: string, from: nat, r: Option<nat>)
    requires r.Some? ==> from <= r.value && OccursAt(s, pattern, r.value)
    requires r.Some? ==> forall j :: from <= j < r.value ==> !OccursAt(s, pattern, j)
    requires r.None? ==> forall j :: from <= j ==> !OccursAt(s, pattern, j)
    ensures FindSub(s, pattern, from) == r
  {
  }

  /** Occurrences in a suffix are occurrences in the whole string, shifted. */
  lemma OccursAtShift(prefix: string, s: string, pattern: string, j: nat)
    ensures OccursAt(prefix + s, pattern, |prefix| + j) <==> OccursAt(s, pattern, j)
  {
    if j + |pattern| <= |s| {
      assert (prefix + s)[|prefix| + j..|prefix| + j + |pattern|] == s[j..j + |pattern|];
    }
  }

  /** Searching past a prefix is searching the rest. */
  lemma FindSubShift(prefix: string, s: string, pattern: string, from: nat)
    ensures FindSub(prefix + s, pattern, |prefix| + from)
         == (match FindSub(s, pattern, from) case None => None case Some(i) => Some(|prefix| + i))
  {
    hide FindSub;
    var r := FindSub(s, pattern, from);
    var t := prefix + s;
    if r.None? {
      forall j: nat | |prefix| + from <= j
        ensures !OccursAt(t, pattern, j)
      {
        OccursAtShift(prefix, s, pattern, j - |prefix|);
      }
      FindSubUnique(t, pattern, |prefix| + from, None);
    } else {
      forall j: nat | |prefix| + from <= j < |prefix| + r.value
        ensures !OccursAt(t, pattern, j)
      {
        OccursAtShift(prefix, s, pattern, j - |prefix|);
      }
      OccursAtShift(prefix, s, pattern, r.value);
      FindSubUnique(t, pattern, |prefix| + from, Some(|prefix| + r.value));
    }
  }
}
