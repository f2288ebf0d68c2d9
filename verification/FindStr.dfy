/** Substring search (Helpers.cpp). */
module SubstringSearch {
  const NUL := '\0'

  /** A NUL-terminated ASCII text. The empty sequence stands for a null pointer. */
  ghost predicate IsCString(s: string) {
    s == [] || (s[|s| - 1] == NUL && forall i {:trigger s[i]} :: 0 <= i < |s| - 1 ==> NUL < s[i] < 128 as char)
  }

  function Upper(c: char, matchCase: bool): char {
    if !matchCase && 'a' <= c <= 'z' then 'A' + (c - 'a') else c
  }

  ghost predicate Same(a: char, b: char, matchCase: bool) {
    Upper(a, matchCase) == Upper(b, matchCase)
  }

  /** The needle stands at position k of the haystack, up to case if that does not matter. */
  ghost predicate MatchesAt(haystack: string, needle: string, matchCase: bool, k: int) {
    && haystack != [] && needle != [] && 0 <= k && k + |needle| <= |haystack|
    && forall i {:trigger needle[i]} :: 0 <= i < |needle| - 1 ==> Same(haystack[k + i], needle[i], matchCase)
  }

  ghost predicate NoneBefore(haystack: string, needle: string, matchCase: bool, k: int) {
    forall j {:trigger MatchesAt(haystack, needle, matchCase, j)} ::
      0 <= j < k ==> !MatchesAt(haystack, needle, matchCase, j)
  }

  /** With case mattering a match is the needle's text itself. */
  lemma ExactMatch(haystack: string, needle: string, k: nat)
    requires needle != [] && k + |needle| <= |haystack|
    ensures MatchesAt(haystack, needle, true, k) <==> haystack[k..k + |needle| - 1] == needle[..|needle| - 1]
  {
    var part := haystack[k..k + |needle| - 1];
    if MatchesAt(haystack, needle, true, k) {
      forall i | 0 <= i < |needle| - 1
        ensures part[i] == needle[i]
      {
        assert Same(haystack[k + i], needle[i], true);
      }
    } else {
      var i :| 0 <= i < |needle| - 1 && !Same(haystack[k + i], needle[i], true);
      assert part[i] != needle[..|needle| - 1][i];
    }
  }

  /** The same character, or the small and the capital form of one letter. */
  predicate SameLetter(a: char, b: char) {
    || a == b
    || ('a' <= a <= 'z' && b as int == a as int - 32) || ('a' <= b <= 'z' && a as int == b as int - 32)
  }

  /** Without case a match is the needle's text letter by letter, and letters only are taken for one another. */
  lemma FoldedMatch(haystack: string, needle: string, k: nat)
    requires needle != [] && k + |needle| <= |haystack|
    ensures MatchesAt(haystack, needle, false, k) <==>
            forall i :: 0 <= i < |needle| - 1 ==> SameLetter(haystack[k + i], needle[i])
  {
    forall i | 0 <= i < |needle| - 1
      ensures Same(haystack[k + i], needle[i], false) <==> SameLetter(haystack[k + i], needle[i])
    {
    }
    if forall i :: 0 <= i < |needle| - 1 ==> SameLetter(haystack[k + i], needle[i]) {
      assert MatchesAt(haystack, needle, false, k);
    } else {
      var i :| 0 <= i < |needle| - 1 && !SameLetter(haystack[k + i], needle[i]);
      assert !Same(haystack[k + i], needle[i], false);
    }
  }

  ghost predicate SameText(s: string, t: string) {
    |s| == |t| && forall i :: 0 <= i < |s| ==> SameLetter(s[i], t[i])
  }

  /** Without case it makes no difference to any search in which case the letters of either text are. */
  lemma CaseDoesNotMatter(haystack: string, needle: string, haystack': string, needle': string, k: int)
    requires SameText(haystack, haystack') && SameText(needle, needle')
    ensures MatchesAt(haystack, needle, false, k) <==> MatchesAt(haystack', needle', false, k)
    ensures NoneBefore(haystack, needle, false, k) <==> NoneBefore(haystack', needle', false, k)
  {
    forall j: int {:trigger MatchesAt(haystack, needle, false, j)} {:trigger MatchesAt(haystack', needle', false, j)}
      ensures MatchesAt(haystack, needle, false, j) <==> MatchesAt(haystack', needle', false, j)
    {
      if needle != [] && 0 <= j && j + |needle| <= |haystack| {
        FoldedMatch(haystack, needle, j);
        FoldedMatch(haystack', needle', j);
        forall i | 0 <= i < |needle| - 1
          ensures SameLetter(haystack[j + i], needle[i]) <==> SameLetter(haystack'[j + i], needle'[i])
        {
          assert SameLetter(haystack[j + i], haystack'[j + i]) && SameLetter(needle[i], needle'[i]);
        }
      }
    }
  }

  /** The labels of the search: the head of the scan, the check in the middle of it, and the comparison. */
  datatype Label = Scan | ShLoop | Jin

  function Rank(l: Label): nat {
    match l
    case Scan => 0
    case Jin => 1
    case ShLoop => 2
  }

  /** The first place of the needle in the haystack, or -1. */
  method FindStr(haystack: string, needle: string, matchCase: bool) returns (k: int)
    requires IsCString(haystack) && IsCString(needle)
    ensures k >= 0 ==>
              |needle| > 1 && MatchesAt(haystack, needle, matchCase, k) && NoneBefore(haystack, needle, matchCase, k)
    ensures k < 0 ==> k == -1 && (|needle| <= 1 || NoneBefore(haystack, needle, matchCase, |haystack|))
  {
    if haystack == [] || needle == [] || needle[0] == NUL {
      return -1;
    }
    var b := Upper(needle[0], matchCase);
    k := FirstOf(haystack, needle, matchCase, b);
    if k < 0 {
      return;
    }
    var c := Upper(needle[1], matchCase);
    if c == NUL {
      return;
    }
    var at := Jin;
    while true
      invariant 0 <= k < |haystack| - 1 && haystack[k] != NUL
      invariant NoneBefore(haystack, needle, matchCase, if at == Scan then k + 1 else k)
      invariant at == Jin ==> Upper(haystack[k], matchCase) == b
      decreases |haystack| - k, Rank(at)
    {
      match at
      case Scan =>
        k := k + 1;
        if haystack[k] == NUL {
          return -1;
        }
        if Upper(haystack[k], matchCase) == b {
          at := Jin;
        } else {
          k := k + 1;
          if haystack[k] == NUL {
            return -1;
          }
          at := ShLoop;
        }
      case ShLoop =>
        at := if Upper(haystack[k], matchCase) != b then Scan else Jin;
      case Jin =>
        k := k + 1;
        if haystack[k] == NUL {
          return -1;
        }
        if Upper(haystack[k], matchCase) != c {
          at := ShLoop;
        } else {
          k := k - 1;
          var found := CompareRest(haystack, needle, matchCase, k);
          if found {
            return;
          }
          at := Scan;
        }
    }
  }

  /** The head of the search: where the first character of the needle occurs first. */
  method FirstOf(haystack: string, needle: string, matchCase: bool, b: char) returns (k: int)
    requires IsCString(haystack) && haystack != [] && IsCString(needle) && |needle| > 1
    requires b == Upper(needle[0], matchCase)
    ensures k >= 0 ==>
              k < |haystack| - 1 && Upper(haystack[k], matchCase) == b && NoneBefore(haystack, needle, matchCase, k)
    ensures k < 0 ==> k == -1 && NoneBefore(haystack, needle, matchCase, |haystack|)
  {
    k := -1;
    while true
      invariant -1 <= k < |haystack| - 1
      invariant NoneBefore(haystack, needle, matchCase, k + 1)
      decreases |haystack| - k
    {
      k := k + 1;
      if haystack[k] == NUL {
        return -1;
      }
      if Upper(haystack[k], matchCase) == b {
        return;
      }
    }
  }

  /** Compare the needle from its third character on, two characters a round. */
  method CompareRest(haystack: string, needle: string, matchCase: bool, k: nat) returns (found: bool)
    requires IsCString(haystack) && IsCString(needle) && |needle| > 2 && k + 2 < |haystack|
    requires Same(haystack[k], needle[0], matchCase) && Same(haystack[k + 1], needle[1], matchCase)
    ensures found <==> MatchesAt(haystack, needle, matchCase, k)
  {
    var r, n := k + 2, 2;
    var a := Upper(needle[n], matchCase);
    if Upper(haystack[r], matchCase) == a {
      while true
        invariant 2 <= n < |needle| && r == k + n < |haystack|
        invariant forall i {:trigger needle[i]} :: 0 <= i < n ==>
                  needle[i] != NUL && Same(haystack[k + i], needle[i], matchCase)
        invariant a == Upper(needle[n], matchCase) == Upper(haystack[r], matchCase)
        decreases |needle| - n
      {
        if a == NUL {
          return true;
        }
        r := r + 1;
        n := n + 1;
        a := Upper(needle[n], matchCase);
        if Upper(haystack[r], matchCase) != a {
          break;
        }
        if a == NUL {
          return true;
        }
        r := r + 1;
        n := n + 1;
        a := Upper(needle[n], matchCase);
        if Upper(haystack[r], matchCase) != a {
          break;
        }
      }
    }
    found := a == NUL;
  }
}
