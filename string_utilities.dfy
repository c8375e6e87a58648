/** The string helpers of string_utilities.h.  A std::string is a sequence of characters;
    a helper that rewrites its argument in place character by character takes an array of
    characters, and one that changes the length returns the new contents.  Character
    classes are those of the C locale over ASCII. */
module StringUtilities {
  import opened Sequences

  /** std::isspace in the C locale: space, tab, newline, vertical tab, form feed, carriage
      return. */
  predicate IsSpace(c: char) {
    c == ' ' || '\t' <= c <= '\r'
  }

  predicate IsLower(c: char) {
    'a' <= c <= 'z'
  }

  predicate IsUpper(c: char) {
    'A' <= c <= 'Z'
  }

  /** std::toupper: a lower-case letter becomes its capital, anything else stays. */
  function ToUpperChar(c: char): (u: char)
    ensures !IsLower(u)
    ensures IsLower(c) ==> IsUpper(u) && u as int == c as int - 32
    ensures !IsLower(c) ==> u == c
  {
    if IsLower(c) then (c as int - 32) as char else c
  }

  /** std::tolower: a capital letter becomes its lower-case letter, anything else stays. */
  function ToLowerChar(c: char): (l: char)
    ensures !IsUpper(l)
    ensures IsUpper(c) ==> IsLower(l) && l as int == c as int + 32
    ensures !IsUpper(c) ==> l == c
  {
    if IsUpper(c) then (c as int + 32) as char else c
  }

  /** Upper-casing then lower-casing gives back every character that was not a capital,
      and the other way round. */
  lemma CaseRoundTrip(c: char)
    ensures !IsUpper(c) ==> ToLowerChar(ToUpperChar(c)) == c
    ensures !IsLower(c) ==> ToUpperChar(ToLowerChar(c)) == c
  {
  }

  // split

  /** The pieces joined back together with d between consecutive ones. */
  function Join(pieces: seq<string>, d: char): string {
    if |pieces| == 0 then ""
    else if |pieces| == 1 then pieces[0]
    else Join(pieces[..|pieces| - 1], d) + [d] + pieces[|pieces| - 1]
  }

  /** split(s, d): std::getline(ss, item, d) in a loop, each item pushed back.  getline
      reads up to the next d (dropping it) or to the end, and fails only when no character
      is left, so a trailing d gives no empty last piece and "" gives no piece at all. */
  method Split(s: string, d: char) returns (elems: seq<string>)
    ensures forall k :: 0 <= k < |elems| ==> d !in elems[k]
    ensures elems == [] <==> s == []
    ensures Join(elems, d) == if s != [] && s[|s| - 1] == d then s[..|s| - 1] else s
  {
    elems := [];
    var pos := 0;
    while pos < |s|
      invariant pos <= |s|
      invariant forall k :: 0 <= k < |elems| ==> d !in elems[k]
      invariant elems == [] <==> pos == 0
      invariant pos > 0 ==> (s[pos - 1] == d && Join(elems, d) == s[..pos - 1]) ||
                            (pos == |s| && s[pos - 1] != d && Join(elems, d) == s)
    {
      var start := pos;
      var item := "";
      while pos < |s| && s[pos] != d
        invariant start <= pos <= |s| && item == s[start..pos] && d !in item
      {
        item := item + [s[pos]];
        pos := pos + 1;
      }
      ghost var joined := if elems == [] then item else Join(elems, d) + [d] + item;
      assert Join(elems + [item], d) == joined by {
        if elems != [] {
          assert (elems + [item])[..|elems|] == elems;
        }
      }
      assert start > 0 ==> s[..start] == s[..start - 1] + [d];
      assert joined == s[..pos] by {
        assert s[..pos] == s[..start] + s[start..pos];
      }
      if pos < |s| {
        pos := pos + 1;
      } else {
        assert s[..pos] == s;
      }
      elems := elems + [item];
    }
  }

  /** prepend(s, pr): s.insert(0, pr), so s becomes pr followed by the old s. */
  function Prepend(s: string, pr: string): (r: string)
    ensures |r| == |pr| + |s| && r[..|pr|] == pr && r[|pr|..] == s
  {
    pr + s
  }

  /** starts_with(s, c): the first character is c; s must not be empty. */
  function StartsWith(s: string, c: char): (b: bool)
    requires s != []
    ensures b <==> s[0] == c
  {
    s[0] == c
  }

  /** ends_with(s, c): the last character is c; s must not be empty. */
  function EndsWith(s: string, c: char): (b: bool)
    requires s != []
    ensures b <==> s[|s| - 1] == c
  {
    s[|s| - 1] == c
  }

  /** After prepending a non-empty pr the string starts with pr's first character and
      still ends with what it ended with. */
  lemma PrependEnds(s: string, pr: string, c: char)
    requires pr != []
    ensures StartsWith(Prepend(s, pr), pr[0])
    ensures s != [] ==> (EndsWith(Prepend(s, pr), c) <==> EndsWith(s, c))
  {
    assert Prepend(s, pr)[0] == pr[0];
  }

  // to_upper, to_lower

  /** to_upper(s): each character c becomes toupper(c), in place. */
  method ToUpper(s: array<char>)
    modifies s
    ensures forall k :: 0 <= k < s.Length ==> s[k] == ToUpperChar(old(s[k]))
  {
    var i := 0;
    while i < s.Length
      invariant i <= s.Length
      invariant forall k :: 0 <= k < i ==> s[k] == ToUpperChar(old(s[k]))
      invariant forall k :: i <= k < s.Length ==> s[k] == old(s[k])
    {
      s[i] := ToUpperChar(s[i]);
      i := i + 1;
    }
  }

  /** to_lower(s): each character c becomes tolower(c), in place. */
  method ToLower(s: array<char>)
    modifies s
    ensures forall k :: 0 <= k < s.Length ==> s[k] == ToLowerChar(old(s[k]))
  {
    var i := 0;
    while i < s.Length
      invariant i <= s.Length
      invariant forall k :: 0 <= k < i ==> s[k] == ToLowerChar(old(s[k]))
      invariant forall k :: i <= k < s.Length ==> s[k] == old(s[k])
    {
      s[i] := ToLowerChar(s[i]);
      i := i + 1;
    }
  }

  // remove_whitespace, trim, remove_vowels

  /** remove_whitespace(s): the erase-remove idiom over isspace. */
  function RemoveWhitespace(s: string): (r: string)
    ensures forall k :: 0 <= k < |r| ==> !IsSpace(r[k])
    ensures |r| == |s| - CountWhere(s, IsSpace)
  {
    RemoveWhere(s, IsSpace)
  }

  /** remove_whitespace keeps every non-space character as often as it occurred, in the
      original order, and a second call changes nothing. */
  lemma RemoveWhitespaceKeeps(s: string, a: string, b: string)
    ensures forall c :: !IsSpace(c) ==> multiset(RemoveWhitespace(s))[c] == multiset(s)[c]
    ensures RemoveWhitespace(a + b) == RemoveWhitespace(a) + RemoveWhitespace(b)
    ensures RemoveWhitespace(RemoveWhitespace(s)) == RemoveWhitespace(s)
  {
    RemoveWhereMultiset(s, IsSpace);
    RemoveWhereAppend(a, b, IsSpace);
    RemoveWhereIdempotent(s, IsSpace);
  }

  /** Membership of char_set, as the predicate trim(s, char_set) removes by. */
  function InSet(charSet: set<char>): char -> bool {
    c => c in charSet
  }

  /** Occurrence in source, as the predicate trim(s, str_source) removes by. */
  function InString(source: string): char -> bool {
    c => c in source
  }

  /** trim(s, char_set): the erase-remove idiom over membership of char_set. */
  function TrimSet(s: string, charSet: set<char>): (r: string)
    ensures forall k :: 0 <= k < |r| ==> r[k] !in charSet
    ensures forall c :: multiset(r)[c] == if c in charSet then 0 else multiset(s)[c]
  {
    RemoveWhereMultiset(s, InSet(charSet));
    RemoveWhere(s, InSet(charSet))
  }

  /** trim(s, str_source): the erase-remove idiom over occurrence in str_source. */
  function TrimString(s: string, source: string): (r: string)
    ensures forall k :: 0 <= k < |r| ==> r[k] !in source
  {
    RemoveWhere(s, InString(source))
  }

  /** Both removals with a predicate that holds for the same characters give the same
      string. */
  lemma {:induction false} RemoveWhereSame(s: string, p: char -> bool, q: char -> bool)
    requires forall c :: p(c) == q(c)
    ensures RemoveWhere(s, p) == RemoveWhere(s, q)
  {
    if s != [] {
      RemoveWhereSame(s[..|s| - 1], p, q);
    }
  }

  /** Trimming by a string is trimming by the set of its characters. */
  lemma TrimStringIsTrimSet(s: string, source: string)
    ensures TrimString(s, source) == TrimSet(s, set c | c in source)
  {
    RemoveWhereSame(s, InString(source), InSet(set c | c in source));
  }

  /** The ten ASCII vowels, lower and upper case. */
  const Vowels: set<char> := {'a', 'e', 'i', 'o', 'u', 'A', 'E', 'I', 'O', 'U'}

  /** remove_vowels(s): trim(s, the ten vowels). */
  function RemoveVowels(s: string): (r: string)
    ensures forall k :: 0 <= k < |r| ==> r[k] !in Vowels
    ensures forall c :: c !in Vowels ==> multiset(r)[c] == multiset(s)[c]
  {
    TrimSet(s, Vowels)
  }

  // remove_leading_whitespaces, remove_trailing_whitespaces

  /** s without its longest all-space prefix. */
  function TrimLeading(s: string): (r: string)
    ensures |r| <= |s| && r == s[|s| - |r|..]
    ensures forall k :: 0 <= k < |s| - |r| ==> IsSpace(s[k])
    ensures r == [] || !IsSpace(r[0])
  {
    if s != [] && IsSpace(s[0]) then TrimLeading(s[1..]) else s
  }

  /** s without its longest all-space suffix. */
  function TrimTrailing(s: string): (r: string)
    ensures |r| <= |s| && r == s[..|r|]
    ensures forall k :: |r| <= k < |s| ==> IsSpace(s[k])
    ensures r == [] || !IsSpace(r[|r| - 1])
  {
    if s != [] && IsSpace(s[|s| - 1]) then TrimTrailing(s[..|s| - 1]) else s
  }

  /** Removing the leading or trailing spaces a second time removes nothing. */
  lemma TrimIdempotent(s: string)
    ensures TrimLeading(TrimLeading(s)) == TrimLeading(s)
    ensures TrimTrailing(TrimTrailing(s)) == TrimTrailing(s)
  {
  }

  /** remove_leading_whitespaces(s): while the first character is a space, erase it. */
  method RemoveLeadingWhitespaces(s: string) returns (r: string)
    ensures r == TrimLeading(s)
  {
    r := s;
    while r != []
      invariant TrimLeading(r) == TrimLeading(s)
    {
      if IsSpace(r[0]) {
        r := r[1..];
      } else {
        break;
      }
    }
  }

  /** remove_trailing_whitespaces(s): while the last character is a space, erase it. */
  method RemoveTrailingWhitespaces(s: string) returns (r: string)
    ensures r == TrimTrailing(s)
  {
    r := s;
    while r != []
      invariant TrimTrailing(r) == TrimTrailing(s)
    {
      if IsSpace(r[|r| - 1]) {
        r := r[..|r| - 1];
      } else {
        break;
      }
    }
  }
}
