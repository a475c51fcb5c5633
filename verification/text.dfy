/** String helpers shared by the backend and both frontends: prefix slicing
    (Python `s[:k]`, JavaScript `s.substring(0, k)`) and whitespace trimming
    (Python `s.strip()`, JavaScript `s.trim()`). Strings are `seq<char>` and
    lengths are sequence lengths. */
module Text {

  /** The first `k` characters of `s`, or all of `s` when it is shorter. */
  function Take(s: string, k: nat): (r: string)
    ensures r <= s
    ensures |r| == if |s| <= k then |s| else k
  {
    if |s| <= k then s else s[..k]
  }

  /** Python's `s[:k]` for any integer `k`: a negative `k` counts from the end. */
  function SliceTo(s: string, k: int): (r: string)
    ensures r <= s
    ensures 0 <= k ==> r == Take(s, k)
    ensures k < 0 ==> |r| == if |s| + k < 0 then 0 else |s| + k
  {
    if 0 <= k then Take(s, k)
    else if |s| + k < 0 then []
    else s[..|s| + k]
  }

  /** The ASCII whitespace characters removed by `strip()` / `trim()`. */
  predicate IsSpace(c: char)
  {
    c == ' ' || c == '\t' || c == '\n' || c == '\r' || c == 11 as char || c == 12 as char
  }

  /** A string made only of whitespace (the empty string included). */
  predicate IsBlank(s: string)
  {
    forall i :: 0 <= i < |s| ==> IsSpace(s[i])
  }

  function TrimStart(s: string): (r: string)
    ensures |r| <= |s| && r == s[|s| - |r|..]
    decreases |s|
  {
    if s != [] && IsSpace(s[0]) then TrimStart(s[1..]) else s
  }

  function TrimEnd(s: string): (r: string)
    ensures r <= s
    decreases |s|
  {
    if s != [] && IsSpace(s[|s| - 1]) then TrimEnd(s[..|s| - 1]) else s
  }

  /** `s.strip()`: whitespace removed from both ends. */
  function Strip(s: string): string
  {
    TrimEnd(TrimStart(s))
  }

  /** A non-empty string is blank when its head is a space and its tail is blank. */
  lemma BlankUnfold(s: string)
    requires s != []
    ensures IsBlank(s) <==> IsSpace(s[0]) && IsBlank(s[1..])
  {
    if IsSpace(s[0]) && IsBlank(s[1..]) {
      forall i | 0 <= i < |s| ensures IsSpace(s[i]) {
        if i > 0 { assert s[i] == s[1..][i - 1]; }
      }
    }
    if IsBlank(s) {
      forall i | 0 <= i < |s| - 1 ensures IsSpace(s[1..][i]) {
        assert s[1..][i] == s[i + 1];
      }
    }
  }

  lemma {:induction false} TrimStartEmptyIffBlank(s: string)
    ensures TrimStart(s) == [] <==> IsBlank(s)
    decreases |s|
  {
    if s != [] {
      BlankUnfold(s);
      if IsSpace(s[0]) {
        TrimStartEmptyIffBlank(s[1..]);
      }
    }
  }

  lemma {:induction false} TrimStartKeepsNonSpaceHead(s: string)
    requires TrimStart(s) != []
    ensures !IsSpace(TrimStart(s)[0])
    decreases |s|
  {
    if s != [] && IsSpace(s[0]) {
      TrimStartKeepsNonSpaceHead(s[1..]);
    }
  }

  lemma {:induction false} TrimEndKeepsNonSpaceHead(s: string)
    requires s != [] && !IsSpace(s[0])
    ensures TrimEnd(s) != []
    decreases |s|
  {
    if IsSpace(s[|s| - 1]) {
      assert |s| > 1;
      TrimEndKeepsNonSpaceHead(s[..|s| - 1]);
    }
  }

  /** Python's `s.strip() == ""` (and JavaScript's `!s.trim()`) holds exactly
      for the blank strings. */
  lemma StripEmptyIffBlank(s: string)
    ensures Strip(s) == [] <==> IsBlank(s)
  {
    TrimStartEmptyIffBlank(s);
    if TrimStart(s) != [] {
      TrimStartKeepsNonSpaceHead(s);
      TrimEndKeepsNonSpaceHead(TrimStart(s));
    }
  }
}
