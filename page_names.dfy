/** The two name helpers of a wiki page (class Page, web/php/DB/Page.php):
    the category part of a page's unix name ("slug"), and the title shown
    when the stored title is missing.  Both are pure string functions of
    the stored title and unix name; the PHP library calls they are built
    from (strpos, explode, preg_replace, str_replace, ucfirst) are modelled
    one by one below. */
module PageNames {
  import opened Wrappers

  /** The category a unix name without a usable category part belongs to. */
  const DefaultCategory: string := "_default"

  // ---------------------------------------------------------------------
  // strpos and PHP's loose comparison with false
  // ---------------------------------------------------------------------

  /** PHP strpos($haystack, $needle) for a one-character needle: the index
      of the first occurrence, or None where PHP returns false. */
  function StrPos(haystack: string, needle: char): (r: Option<nat>)
    ensures r.None? <==> needle !in haystack
    ensures r.Some? ==> r.value < |haystack| && haystack[r.value] == needle
    ensures r.Some? ==> needle !in haystack[..r.value]
  {
    if |haystack| == 0 then None
    else if haystack[0] == needle then Some(0)
    else
      match StrPos(haystack[1..], needle)
      case None => None
      case Some(p) =>
        assert haystack[..p + 1] == [haystack[0]] + haystack[1..][..p];
        Some(p + 1)
  }

  /** The value of `strpos(...) != false` in PHP.  Under loose comparison
      the integer 0 equals false, so a match at index 0 reads as "not found". */
  predicate LooseNotEqualFalse(r: Option<nat>)
    ensures r.None? ==> !LooseNotEqualFalse(r)
    ensures r == Some(0) ==> !LooseNotEqualFalse(r)
    ensures r.Some? && r.value > 0 ==> LooseNotEqualFalse(r)
  {
    match r
    case None => false
    case Some(p) => p != 0
  }

  // ---------------------------------------------------------------------
  // explode
  // ---------------------------------------------------------------------

  /** PHP explode($sep, $s) for a one-character separator and no limit:
      the pieces of s between consecutive separators. */
  function Explode(sep: char, s: string): (parts: seq<string>)
    ensures |parts| >= 1
    ensures forall k :: 0 <= k < |parts| ==> sep !in parts[k]
    ensures parts[0] <= s
    ensures |parts[0]| < |s| ==> s[|parts[0]|] == sep
    decreases |s|
  {
    match StrPos(s, sep)
    case None => [s]
    case Some(p) => [s[..p]] + Explode(sep, s[p + 1..])
  }

  /** PHP implode($sep, $parts): the pieces joined with the separator. */
  function Implode(sep: char, parts: seq<string>): string
    decreases |parts|
  {
    if |parts| == 0 then ""
    else if |parts| == 1 then parts[0]
    else parts[0] + [sep] + Implode(sep, parts[1..])
  }

  /** StrPos finds an index exactly when it is the first occurrence. */
  lemma StrPosAt(s: string, c: char, p: nat)
    requires p < |s| && s[p] == c && c !in s[..p]
    ensures StrPos(s, c) == Some(p)
  {
    assert StrPos(s, c).Some?;
  }

  /** Exploding loses nothing: joining the pieces gives back the input. */
  lemma {:induction false} ImplodeExplode(sep: char, s: string)
    ensures Implode(sep, Explode(sep, s)) == s
    decreases |s|
  {
    match StrPos(s, sep)
    case None =>
    case Some(p) =>
      ImplodeExplode(sep, s[p + 1..]);
      assert s == s[..p] + [sep] + s[p + 1..];
  }

  /** Conversely, exploding a join of separator-free pieces gives back the
      pieces, so Implode and Explode are inverse to each other. */
  lemma {:induction false} ExplodeImplode(sep: char, parts: seq<string>)
    requires |parts| >= 1
    requires forall k :: 0 <= k < |parts| ==> sep !in parts[k]
    ensures Explode(sep, Implode(sep, parts)) == parts
    decreases |parts|
  {
    if |parts| > 1 {
      var head, tail := parts[0], parts[1..];
      assert sep !in head;
      var rest := Implode(sep, tail);
      ExplodeJoin(sep, head, rest);
      ExplodeImplode(sep, tail);
      assert parts == [head] + tail;
    }
  }

  /** Exploding a separator-free piece, a separator and a rest splits off
      the piece. */
  lemma ExplodeJoin(sep: char, head: string, rest: string)
    requires sep !in head
    ensures Explode(sep, head + [sep] + rest) == [head] + Explode(sep, rest)
  {
    var s := head + [sep] + rest;
    assert s[..|head|] == head;
    StrPosAt(s, sep, |head|);
    assert s[|head| + 1..] == rest;
  }

  // ---------------------------------------------------------------------
  // getCategoryName
  // ---------------------------------------------------------------------

  /** Page::getCategoryName: the part of the unix name before its first
      colon, or "_default" when strpos(...) != false fails, that is, when
      there is no colon or the first colon is the first character. */
  function CategoryName(unixName: string): (r: string)
    ensures ':' !in r
    ensures LooseNotEqualFalse(StrPos(unixName, ':')) ==>
              r == unixName[..StrPos(unixName, ':').value]
    ensures !LooseNotEqualFalse(StrPos(unixName, ':')) ==> r == DefaultCategory
  {
    DefaultHasNoColon();
    if LooseNotEqualFalse(StrPos(unixName, ':')) then
      var p := StrPos(unixName, ':').value;
      var first := Explode(':', unixName)[0];
      FirstColonUnique(unixName, p, |first|);
      first
    else DefaultCategory
  }

  lemma DefaultHasNoColon()
    ensures ':' !in DefaultCategory
  {
    assert DefaultCategory == ['_', 'd', 'e', 'f', 'a', 'u', 'l', 't'];
  }

  /** Without a colon the category is "_default". */
  lemma CategoryNameWithoutColon(unixName: string)
    requires ':' !in unixName
    ensures CategoryName(unixName) == DefaultCategory
  {
  }

  /** A leading colon also gives "_default" (strpos returns 0, and 0 == false). */
  lemma CategoryNameLeadingColon(unixName: string)
    requires |unixName| > 0 && unixName[0] == ':'
    ensures CategoryName(unixName) == DefaultCategory
  {
  }

  /** When the first colon is at a positive index p, the category is exactly
      the text before it. */
  lemma CategoryNameBeforeFirstColon(unixName: string, p: nat)
    requires p < |unixName| && unixName[p] == ':' && ':' !in unixName[..p]
    requires p > 0
    ensures CategoryName(unixName) == unixName[..p]
  {
    StrPosAt(unixName, ':', p);
  }

  /** Two indices that are each "the first colon" are equal. */
  lemma FirstColonUnique(s: string, p: nat, q: nat)
    requires p < |s| && s[p] == ':' && ':' !in s[..p]
    requires q < |s| && s[q] == ':' && ':' !in s[..q]
    ensures p == q
  {
  }

  /** The category never contains a colon, and unless it is "_default"
      taken from the default branch it is a non-empty proper prefix of the
      unix name that stops at the first colon. */
  lemma {:induction false} CategoryNameShape(unixName: string)
    ensures ':' !in CategoryName(unixName)
    ensures LooseNotEqualFalse(StrPos(unixName, ':')) ==>
              var c := CategoryName(unixName);
              0 < |c| < |unixName| && c == unixName[..|c|] && unixName[|c|] == ':'
    ensures !LooseNotEqualFalse(StrPos(unixName, ':')) ==> CategoryName(unixName) == DefaultCategory
  {
    var r := StrPos(unixName, ':');
    if LooseNotEqualFalse(r) {
      CategoryNameBeforeFirstColon(unixName, r.value);
    }
  }

  /** A category different from "_default" always comes from the colon branch. */
  lemma CategoryNameNotDefault(unixName: string)
    requires CategoryName(unixName) != DefaultCategory
    ensures var p := StrPos(unixName, ':');
            p.Some? && p.value > 0 && CategoryName(unixName) == unixName[..p.value]
  {
    var p := StrPos(unixName, ':');
    CategoryNameBeforeFirstColon(unixName, p.value);
  }

  // ---------------------------------------------------------------------
  // preg_replace("/^[a-z0-9\-]+:/i", '', $s)
  // ---------------------------------------------------------------------

  /** A character of the class [a-z0-9\-] under the /i flag (ASCII only;
      the pattern has no /u flag). */
  predicate IsSlugChar(c: char)
  {
    ('a' <= c <= 'z') || ('A' <= c <= 'Z') || ('0' <= c <= '9') || c == '-'
  }

  /** Reference definition of the regular expression: the first n characters
      of s are one or more slug characters followed by a colon. */
  ghost predicate MatchesCategoryPrefix(s: string, n: nat)
  {
    2 <= n <= |s| && s[n - 1] == ':' && forall i :: 0 <= i < n - 1 ==> IsSlugChar(s[i])
  }

  /** Length of the longest run of slug characters at the start of s. */
  function SlugRunLength(s: string): (n: nat)
    ensures n <= |s|
    ensures forall i :: 0 <= i < n ==> IsSlugChar(s[i])
    ensures n < |s| ==> !IsSlugChar(s[n])
  {
    if |s| > 0 && IsSlugChar(s[0]) then 1 + SlugRunLength(s[1..]) else 0
  }

  /** Length of the text the anchored pattern removes: the greedy slug run
      and the colon after it, or 0 when the pattern does not match. */
  function CategoryPrefixLength(s: string): (n: nat)
    ensures n <= |s|
    ensures n == 0 || MatchesCategoryPrefix(s, n)
  {
    var k := SlugRunLength(s);
    if 0 < k < |s| && s[k] == ':' then k + 1 else 0
  }

  /** The pattern matches at most one prefix, and CategoryPrefixLength finds
      it whenever there is one; greedy matching and backtracking agree
      because ':' is outside the character class. */
  lemma CategoryPrefixLengthComplete(s: string, n: nat)
    requires MatchesCategoryPrefix(s, n)
    ensures CategoryPrefixLength(s) == n
  {
    assert !IsSlugChar(':');
  }

  /** The pattern matches exactly when the first colon is preceded by at
      least one character and all of those are slug characters; the match
      then ends with that colon. */
  lemma CategoryPrefixByFirstColon(s: string)
    ensures var n := CategoryPrefixLength(s);
            var p := StrPos(s, ':');
            n == (if p.Some? && p.value > 0 && AllSlugChars(s[..p.value]) then p.value + 1 else 0)
  {
    var n := CategoryPrefixLength(s);
    var p := StrPos(s, ':');
    assert !IsSlugChar(':');
    if n > 0 {
      assert ':' !in s[..n - 1] by {
        forall i | 0 <= i < n - 1 ensures s[i] != ':' {
          assert IsSlugChar(s[i]);
        }
      }
      FirstColonUnique(s, n - 1, p.value);
      assert AllSlugChars(s[..p.value]) by {
        forall i | 0 <= i < p.value ensures IsSlugChar(s[..p.value][i]) {
          assert s[..p.value][i] == s[i];
        }
      }
    }
  }

  predicate AllSlugChars(s: string)
  {
    forall i :: 0 <= i < |s| ==> IsSlugChar(s[i])
  }

  /** Without a match, no prefix of s is in the pattern's language. */
  lemma NoMatchWhenZero(s: string)
    requires CategoryPrefixLength(s) == 0
    ensures forall n :: !MatchesCategoryPrefix(s, n)
  {
    forall n | MatchesCategoryPrefix(s, n) ensures false {
      CategoryPrefixLengthComplete(s, n);
    }
  }

  /** preg_replace("/^[a-z0-9\-]+:/i", '', s): the result is a suffix of s;
      what was cut off matches the pattern, and when nothing was cut off no
      prefix of s matches it. */
  function StripCategoryPrefix(s: string): (r: string)
    ensures |r| <= |s| && r == s[|s| - |r|..]
    ensures |r| < |s| ==> MatchesCategoryPrefix(s, |s| - |r|)
    ensures |r| == |s| ==> forall n :: !MatchesCategoryPrefix(s, n)
  {
    var n := CategoryPrefixLength(s);
    if n == 0 then NoMatchWhenZero(s); s else s[n..]
  }

  /** The stripped name is the unix name from the end of the match on. */
  lemma StripIsSuffix(s: string)
    ensures StripCategoryPrefix(s) == s[CategoryPrefixLength(s)..]
  {
  }

  // ---------------------------------------------------------------------
  // str_replace("-", " ", $s) and ucfirst
  // ---------------------------------------------------------------------

  /** str_replace("-", " ", s): every dash becomes a space. */
  function DashesToSpaces(s: string): (r: string)
    ensures |r| == |s|
    ensures forall i :: 0 <= i < |s| ==> r[i] == (if s[i] == '-' then ' ' else s[i])
  {
    if |s| == 0 then ""
    else [if s[0] == '-' then ' ' else s[0]] + DashesToSpaces(s[1..])
  }

  /** strtoupper of one character, ASCII only. */
  function ToUpperAscii(c: char): char
  {
    if 'a' <= c <= 'z' then (c as int - 32) as char else c
  }

  /** ucfirst: upper-cases the first character when it is a lower-case
      ASCII letter and leaves the rest alone. */
  function UcFirst(s: string): (r: string)
    ensures |r| == |s|
    ensures |s| > 0 ==> r[0] == ToUpperAscii(s[0]) && r[1..] == s[1..]
  {
    if |s| == 0 then s else [ToUpperAscii(s[0])] + s[1..]
  }

  // ---------------------------------------------------------------------
  // getTitleOrUnixName
  // ---------------------------------------------------------------------

  /** The title built from a unix name when no title is stored. */
  function FallbackTitle(unixName: string): (r: string)
    ensures |r| == |unixName| - CategoryPrefixLength(unixName)
    ensures '-' !in r
  {
    UcFirst(DashesToSpaces(StripCategoryPrefix(unixName)))
  }

  /** Page::getTitleOrUnixName: the stored title when it is neither null
      (None) nor the empty string, otherwise the title derived from the
      unix name. */
  function TitleOrUnixName(title: Option<string>, unixName: string): (r: string)
    ensures title.Some? && title.value != "" ==> r == title.value
    ensures title.None? || title == Some("") ==> r == FallbackTitle(unixName)
    ensures r == "" <==> (title.None? || title == Some("")) && CategoryPrefixLength(unixName) == |unixName|
  {
    if title.None? || title.value == "" then FallbackTitle(unixName) else title.value
  }

  /** A stored, non-empty title is returned unchanged. */
  lemma TitleKept(title: string, unixName: string)
    requires title != ""
    ensures TitleOrUnixName(Some(title), unixName) == title
  {
  }

  /** Without a stored title (null or empty) the fallback is used. */
  lemma TitleMissing(title: Option<string>, unixName: string)
    requires title.None? || title == Some("")
    ensures TitleOrUnixName(title, unixName) == FallbackTitle(unixName)
  {
  }

  /** The shape of the fallback title: it is as long as the unix name minus
      the removed category prefix; every character except the first is the
      stripped name's character with dashes turned into spaces; the first
      is that character upper-cased; and no dash survives. */
  lemma FallbackTitleShape(unixName: string)
    ensures var n := CategoryPrefixLength(unixName);
            var r := FallbackTitle(unixName);
            && |r| == |unixName| - n
            && (forall i :: 0 < i < |r| ==>
                  r[i] == (if unixName[n + i] == '-' then ' ' else unixName[n + i]))
            && (|r| > 0 ==> r[0] == ToUpperAscii(if unixName[n] == '-' then ' ' else unixName[n]))
            && '-' !in r
  {
    var n := CategoryPrefixLength(unixName);
    var s := StripCategoryPrefix(unixName);
    StripIsSuffix(unixName);
    var d := DashesToSpaces(s);
    var r := UcFirst(d);
    assert r == FallbackTitle(unixName);
    forall i | 0 < i < |r|
      ensures r[i] == (if unixName[n + i] == '-' then ' ' else unixName[n + i])
    {
      assert r[1..][i - 1] == d[1..][i - 1];
      assert s[i] == unixName[n + i];
    }
    if |r| > 0 {
      assert s[0] == unixName[n];
    }
  }

  /** An empty unix name gives an empty fallback title. */
  lemma FallbackTitleEmpty()
    ensures FallbackTitle("") == ""
  {
  }

  /** The prefix the title fallback strips is the page's category and its
      colon, whenever it strips anything. */
  lemma StrippedPrefixIsCategory(unixName: string)
    requires CategoryPrefixLength(unixName) > 0
    ensures var n := CategoryPrefixLength(unixName);
            CategoryName(unixName) == unixName[..n - 1] && unixName[n - 1] == ':'
  {
    var n := CategoryPrefixLength(unixName);
    CategoryPrefixByFirstColon(unixName);
    CategoryNameBeforeFirstColon(unixName, n - 1);
  }
}
