/** The parts of Python's `str` semantics that the scrapers depend on:
    character classes, `strip`, run-collapsing `re.sub`, `split`/`join`,
    substring tests, `lower`/`capitalize` and `int()` on decimal text. */
module PyStrings {
  import opened Wrappers

  // ---------------------------------------------------------------------
  // Character classes
  // ---------------------------------------------------------------------

  /** The characters for which Python's `str.isspace` holds; `str.strip()`
      with no argument removes them and the regular expression `\s` matches
      them on `str` patterns. */
  const Whitespace: set<char> := {
    '\t', '\n', '\U{000B}', '\U{000C}', '\r',
    '\U{001C}', '\U{001D}', '\U{001E}', '\U{001F}', ' ',
    '\U{0085}', '\U{00A0}', '\U{1680}',
    '\U{2000}', '\U{2001}', '\U{2002}', '\U{2003}', '\U{2004}', '\U{2005}',
    '\U{2006}', '\U{2007}', '\U{2008}', '\U{2009}', '\U{200A}',
    '\U{2028}', '\U{2029}', '\U{202F}', '\U{205F}', '\U{3000}'
  }

  predicate IsSpace(c: char) { c in Whitespace }

  predicate IsAsciiUpper(c: char) { 'A' <= c <= 'Z' }

  predicate IsAsciiLower(c: char) { 'a' <= c <= 'z' }

  /** The class `[a-zA-Z]`. */
  predicate IsAsciiLetter(c: char) { IsAsciiUpper(c) || IsAsciiLower(c) }

  predicate IsAsciiDigit(c: char) { '0' <= c <= '9' }

  /** The class `[a-zA-Z0-9]`. */
  predicate IsAsciiAlnum(c: char) { IsAsciiLetter(c) || IsAsciiDigit(c) }

  /** Membership in `string.printable`: digits, ASCII letters, ASCII
      punctuation and the six characters " \t\n\r\x0b\x0c". */
  predicate IsPrintable(c: char) { '\t' <= c <= '\r' || ' ' <= c <= '~' }

  /** `str.lower()` on one character, for the ASCII range. */
  function LowerChar(c: char): (r: char)
    ensures !IsAsciiUpper(r)
    ensures IsAsciiUpper(c) ==> IsAsciiLower(r)
    ensures !IsAsciiUpper(c) ==> r == c
  {
    if IsAsciiUpper(c) then (c as int + 32) as char else c
  }

  /** `str.upper()` on one character, for the ASCII range. */
  function UpperChar(c: char): (r: char)
    ensures !IsAsciiLower(r)
    ensures IsAsciiLower(c) ==> IsAsciiUpper(r)
    ensures !IsAsciiLower(c) ==> r == c
  {
    if IsAsciiLower(c) then (c as int - 32) as char else c
  }

  // ---------------------------------------------------------------------
  // strip
  // ---------------------------------------------------------------------

  /** The length of the longest prefix of `s` made of characters of `cs`. */
  function LeadLen(s: string, cs: set<char>): (n: nat)
    ensures n <= |s|
    ensures forall k :: 0 <= k < n ==> s[k] in cs
    ensures n < |s| ==> s[n] !in cs
  {
    if |s| > 0 && s[0] in cs then 1 + LeadLen(s[1..], cs) else 0
  }

  /** The length of what is left of `s` once the longest suffix made of
      characters of `cs` is dropped. */
  function KeepLen(s: string, cs: set<char>): (n: nat)
    ensures n <= |s|
    ensures forall k :: n <= k < |s| ==> s[k] in cs
    ensures n > 0 ==> s[n - 1] !in cs
  {
    if |s| > 0 && s[|s| - 1] in cs then KeepLen(s[..|s| - 1], cs) else |s|
  }

  /** `s.lstrip(cs)`: drop the longest prefix made of characters of `cs`. */
  function LStrip(s: string, cs: set<char>): (r: string)
    ensures |r| <= |s| && r == s[|s| - |r|..]
    ensures forall k :: 0 <= k < |s| - |r| ==> s[k] in cs
    ensures r == [] || r[0] !in cs
  {
    s[LeadLen(s, cs)..]
  }

  /** `s.rstrip(cs)`: drop the longest suffix made of characters of `cs`. */
  function RStrip(s: string, cs: set<char>): (r: string)
    ensures |r| <= |s| && r == s[..|r|]
    ensures forall k :: |r| <= k < |s| ==> s[k] in cs
    ensures r == [] || r[|r| - 1] !in cs
  {
    s[..KeepLen(s, cs)]
  }

  /** Stripping a leading character of `cs` is part of the strip. */
  lemma LStripStep(s: string, cs: set<char>)
    requires |s| > 0 && s[0] in cs
    ensures LStrip(s, cs) == LStrip(s[1..], cs)
  {
    assert LeadLen(s, cs) == 1 + LeadLen(s[1..], cs);
  }

  /** `s.strip(cs)`. */
  function StripChars(s: string, cs: set<char>): string
  {
    RStrip(LStrip(s, cs), cs)
  }

  /** `s.strip()`. */
  function Strip(s: string): string
  {
    StripChars(s, Whitespace)
  }

  lemma SliceOfSuffix<T>(s: seq<T>, i: nat, m: nat)
    requires i + m <= |s|
    ensures s[i..][..m] == s[i..i + m]
  {
  }

  /** The characters that `rstrip` drops from a suffix of `s` end `s`. */
  lemma SuffixTail(s: string, cs: set<char>, i: nat)
    requires i <= |s|
    ensures forall k :: i + KeepLen(s[i..], cs) <= k < |s| ==> s[k] in cs
  {
    var l := s[i..];
    var m := KeepLen(l, cs);
    forall k | i + m <= k < |s| ensures s[k] in cs {
      assert l[k - i] == s[k];
      assert l[k - i] in cs;
    }
  }

  lemma StripUnfold(s: string, cs: set<char>)
    ensures var l := s[LeadLen(s, cs)..]; StripChars(s, cs) == l[..KeepLen(l, cs)]
  {
  }

  /** The strip is the window of `s` from `LeadLen` on, of the length
      `KeepLen` leaves of that suffix. */
  lemma StripWindow(s: string, cs: set<char>)
    ensures var i := LeadLen(s, cs); var m := KeepLen(s[i..], cs);
      && i + m <= |s|
      && StripChars(s, cs) == s[i..i + m]
      && (forall k :: 0 <= k < i ==> s[k] in cs)
      && (forall k :: i + m <= k < |s| ==> s[k] in cs)
  {
    var i := LeadLen(s, cs);
    var l := s[i..];
    var m := KeepLen(l, cs);
    StripUnfold(s, cs);
    SliceOfSuffix(s, i, m);
    SuffixTail(s, cs, i);
  }

  /** One leading character of `cs` in front of a string that neither
      begins nor ends with one is all that the strip removes. */
  lemma StripOneLeading(c: char, s: string, cs: set<char>)
    requires c in cs && |s| > 0 && s[0] !in cs && s[|s| - 1] !in cs
    ensures StripChars([c] + s, cs) == s
  {
    var t := [c] + s;
    assert t[1..] == s;
    LStripStep(t, cs);
    assert LeadLen(s, cs) == 0;
    assert KeepLen(s, cs) == |s|;
  }

  /** Every character of a strip comes from `s`. */
  lemma StripCharsSubset(s: string, cs: set<char>)
    ensures forall c :: c in StripChars(s, cs) ==> c in s
  {
    StripWindow(s, cs);
    var i := LeadLen(s, cs);
    var r := StripChars(s, cs);
    forall c | c in r ensures c in s {
      var k :| 0 <= k < |r| && r[k] == c;
      assert s[i + k] == c;
    }
  }

  /** A character outside `cs` lies inside the strip window. */
  lemma InWindow(s: string, cs: set<char>, i: nat, m: nat, k: nat)
    requires i + m <= |s| && k < |s| && s[k] !in cs
    requires forall j :: 0 <= j < i ==> s[j] in cs
    requires forall j :: i + m <= j < |s| ==> s[j] in cs
    ensures i <= k < i + m && s[i..i + m][k - i] == s[k]
  {
  }

  /** Every character of `s` outside `cs` survives the strip. */
  lemma StripCharsKeepsOthers(s: string, cs: set<char>)
    ensures forall c :: c in s && c !in cs ==> c in StripChars(s, cs)
  {
    StripWindow(s, cs);
    var i := LeadLen(s, cs);
    var m := KeepLen(s[i..], cs);
    forall c | c in s && c !in cs ensures c in s[i..i + m] {
      var k :| 0 <= k < |s| && s[k] == c;
      InWindow(s, cs, i, m, k);
    }
  }

  /** The strip is empty exactly when `s` is made only of `cs`. */
  lemma StripCharsEmpty(s: string, cs: set<char>)
    ensures StripChars(s, cs) == [] <==> forall k :: 0 <= k < |s| ==> s[k] in cs
  {
    StripWindow(s, cs);
    var i := LeadLen(s, cs);
    var m := KeepLen(s[i..], cs);
    if m > 0 {
      assert s[i] !in cs;
    }
  }

  /** Stripping removes characters of `cs` only at the two ends: every
      other character of `s` survives, the result has none of `cs` at its
      ends, and it is empty exactly when `s` is made only of `cs`. */
  lemma StripCharsKeeps(s: string, cs: set<char>)
    ensures var r := StripChars(s, cs);
      && |r| <= |s|
      && (r == [] || (r[0] !in cs && r[|r| - 1] !in cs))
      && (forall c :: c in r ==> c in s)
      && (forall c :: c in s && c !in cs ==> c in r)
      && (r == [] <==> forall k :: 0 <= k < |s| ==> s[k] in cs)
  {
    StripWindow(s, cs);
    var i := LeadLen(s, cs);
    var m := KeepLen(s[i..], cs);
    if m > 0 {
      assert s[i..][m - 1] == s[i + m - 1];
    }
    StripCharsSubset(s, cs);
    StripCharsKeepsOthers(s, cs);
    StripCharsEmpty(s, cs);
  }

  /** Stripping twice is stripping once. */
  lemma StripCharsIdempotent(s: string, cs: set<char>)
    ensures StripChars(StripChars(s, cs), cs) == StripChars(s, cs)
  {
    StripCharsKeeps(s, cs);
    var r := StripChars(s, cs);
    if r != [] {
      assert LStrip(r, cs) == r;
      assert RStrip(r, cs) == r;
    }
  }

  // ---------------------------------------------------------------------
  // re.sub(r'[cs]+', ' ', s)
  // ---------------------------------------------------------------------

  /** `re.sub('[...]+', ' ', s)` where the bracket class is `cs`: every
      maximal run of characters of `cs` becomes one space. */
  function CollapseRuns(s: string, cs: set<char>): (r: string)
    ensures |r| <= |s|
    decreases |s|
  {
    if s == [] then []
    else if s[0] in cs then " " + CollapseRuns(LStrip(s, cs), cs)
    else [s[0]] + CollapseRuns(s[1..], cs)
  }

  /** No two neighbouring characters of `r` both belong to `cs`. */
  ghost predicate NoAdjacentRun(r: string, cs: set<char>) {
    forall k :: 0 <= k < |r| - 1 ==> !(r[k] in cs && r[k + 1] in cs)
  }

  /** Every character of `r` that belongs to `cs` is a space. */
  ghost predicate OnlySpaces(r: string, cs: set<char>) {
    forall k :: 0 <= k < |r| && r[k] in cs ==> r[k] == ' '
  }

  /** The result of collapsing has no two neighbouring characters of `cs`,
      uses a plain space for each run, and begins with a space exactly
      when `s` begins with a character of `cs`. */
  lemma {:induction false} CollapseRunsShape(s: string, cs: set<char>)
    requires ' ' in cs
    ensures NoAdjacentRun(CollapseRuns(s, cs), cs)
    ensures OnlySpaces(CollapseRuns(s, cs), cs)
    ensures |s| > 0 ==>
      (|CollapseRuns(s, cs)| > 0 && (CollapseRuns(s, cs)[0] in cs <==> s[0] in cs))
    decreases |s|
  {
    var r := CollapseRuns(s, cs);
    if s == [] {
    } else if s[0] in cs {
      var t := LStrip(s, cs);
      CollapseRunsShape(t, cs);
      var rt := CollapseRuns(t, cs);
      assert r == " " + rt;
      assert t != [] ==> rt[0] !in cs;
      forall k | 0 <= k < |r| - 1 ensures !(r[k] in cs && r[k + 1] in cs) {
        if k > 0 {
          assert r[k] == rt[k - 1] && r[k + 1] == rt[k];
        }
      }
      forall k | 0 <= k < |r| && r[k] in cs ensures r[k] == ' ' {
        if k > 0 { assert r[k] == rt[k - 1]; }
      }
    } else {
      var t := s[1..];
      CollapseRunsShape(t, cs);
      var rt := CollapseRuns(t, cs);
      assert r == [s[0]] + rt;
      forall k | 0 <= k < |r| - 1 ensures !(r[k] in cs && r[k + 1] in cs) {
        if k > 0 {
          assert r[k] == rt[k - 1] && r[k + 1] == rt[k];
        }
      }
      forall k | 0 <= k < |r| && r[k] in cs ensures r[k] == ' ' {
        assert k > 0;
        assert r[k] == rt[k - 1];
      }
    }
  }

  /** A string already in collapsed shape is left unchanged. */
  lemma {:induction false} CollapseRunsFixpoint(s: string, cs: set<char>)
    requires NoAdjacentRun(s, cs) && OnlySpaces(s, cs)
    ensures CollapseRuns(s, cs) == s
    decreases |s|
  {
    if s != [] {
      var t := s[1..];
      TailKeepsShape(s, cs);
      CollapseRunsFixpoint(t, cs);
      if s[0] in cs {
        assert s[0] == ' ';
        assert t == [] || t[0] !in cs by {
          if t != [] { assert t[0] == s[1]; }
        }
        assert LStrip(t, cs) == t;
        LStripStep(s, cs);
        assert CollapseRuns(s, cs) == " " + CollapseRuns(t, cs);
      } else {
        assert CollapseRuns(s, cs) == [s[0]] + CollapseRuns(t, cs);
      }
    }
  }

  lemma TailKeepsShape(s: string, cs: set<char>)
    requires s != []
    requires NoAdjacentRun(s, cs) && OnlySpaces(s, cs)
    ensures NoAdjacentRun(s[1..], cs) && OnlySpaces(s[1..], cs)
  {
    var t := s[1..];
    forall k | 0 <= k < |t| - 1 ensures !(t[k] in cs && t[k + 1] in cs) {
      assert t[k] == s[k + 1] && t[k + 1] == s[k + 2];
    }
    forall k | 0 <= k < |t| && t[k] in cs ensures t[k] == ' ' {
      assert t[k] == s[k + 1];
    }
  }

  /** Collapsing twice is collapsing once. */
  lemma CollapseRunsIdempotent(s: string, cs: set<char>)
    requires ' ' in cs
    ensures CollapseRuns(CollapseRuns(s, cs), cs) == CollapseRuns(s, cs)
  {
    CollapseRunsShape(s, cs);
    CollapseRunsFixpoint(CollapseRuns(s, cs), cs);
  }

  /** Collapsing keeps every character outside `cs`, and adds none. */
  lemma {:induction false} CollapseRunsKeeps(s: string, cs: set<char>, c: char)
    requires ' ' in cs && c !in cs
    ensures c in CollapseRuns(s, cs) <==> c in s
    decreases |s|
  {
    if s == [] {
    } else if s[0] in cs {
      var t := LStrip(s, cs);
      CollapseRunsKeeps(t, cs, c);
      LStripKeeps(s, cs, c);
      assert CollapseRuns(s, cs) == " " + CollapseRuns(t, cs);
    } else {
      CollapseRunsKeeps(s[1..], cs, c);
      assert s == [s[0]] + s[1..];
      assert CollapseRuns(s, cs) == [s[0]] + CollapseRuns(s[1..], cs);
    }
  }

  lemma {:induction false} LStripKeeps(s: string, cs: set<char>, c: char)
    requires c !in cs
    ensures c in LStrip(s, cs) <==> c in s
    decreases |s|
  {
    if |s| > 0 && s[0] in cs {
      LStripStep(s, cs);
      LStripKeeps(s[1..], cs, c);
      assert s == [s[0]] + s[1..];
    }
  }

  // ---------------------------------------------------------------------
  // Filtering characters
  // ---------------------------------------------------------------------

  /** `''.join(filter(lambda k: k in printable, s))`. */
  function FilterPrintable(s: string): (r: string)
    ensures |r| <= |s|
    ensures forall k :: 0 <= k < |r| ==> IsPrintable(r[k])
    ensures forall c :: c in r <==> c in s && IsPrintable(c)
  {
    if s == [] then []
    else if IsPrintable(s[0]) then [s[0]] + FilterPrintable(s[1..])
    else FilterPrintable(s[1..])
  }

  /** `len(re.findall(r'[a-zA-Z]', s))`. */
  function CountLetters(s: string): (n: nat)
    ensures n <= |s|
    ensures n > 0 <==> exists k :: 0 <= k < |s| && IsAsciiLetter(s[k])
  {
    if s == [] then 0
    else (if IsAsciiLetter(s[0]) then 1 else 0) + CountLetters(s[1..])
  }

  /** A text made only of ASCII letters counts each of its characters. */
  lemma {:induction false} CountLettersAll(s: string)
    requires forall k :: 0 <= k < |s| ==> IsAsciiLetter(s[k])
    ensures CountLetters(s) == |s|
    decreases |s|
  {
    if s != [] {
      assert forall k :: 0 <= k < |s[1..]| ==> s[1..][k] == s[k + 1];
      CountLettersAll(s[1..]);
    }
  }

  // ---------------------------------------------------------------------
  // Case mapping
  // ---------------------------------------------------------------------

  /** `s.lower()`, for the ASCII range. */
  function Lower(s: string): (r: string)
    ensures |r| == |s|
    ensures forall k :: 0 <= k < |s| ==> r[k] == LowerChar(s[k])
  {
    if s == [] then [] else [LowerChar(s[0])] + Lower(s[1..])
  }

  lemma LowerIdempotent(s: string)
    ensures Lower(Lower(s)) == Lower(s)
  {
    var l := Lower(s);
    assert forall k :: 0 <= k < |l| ==> LowerChar(l[k]) == l[k];
  }

  /** `s.capitalize()`: the first character upper-cased, the rest lower-cased
      (ASCII range). */
  function Capitalize(s: string): (r: string)
    ensures |r| == |s|
    ensures |s| > 0 ==> r[0] == UpperChar(s[0]) && r[1..] == Lower(s[1..])
  {
    if s == [] then [] else [UpperChar(s[0])] + Lower(s[1..])
  }

  // ---------------------------------------------------------------------
  // Substrings, split and join
  // ---------------------------------------------------------------------

  ghost predicate OccursAt(sub: string, s: string, i: int) {
    0 <= i && i + |sub| <= |s| && s[i..i + |sub|] == sub
  }

  /** Python's `sub in s`. */
  function Contains(s: string, sub: string): (b: bool)
    ensures b <==> exists i :: OccursAt(sub, s, i)
    decreases |s|
  {
    if |sub| <= |s| && s[..|sub|] == sub then
      assert OccursAt(sub, s, 0);
      true
    else if |s| == 0 then
      false
    else
      var b := Contains(s[1..], sub);
      assert b ==> exists i :: OccursAt(sub, s, i) by {
        if b {
          var i :| OccursAt(sub, s[1..], i);
          assert s[i + 1..i + 1 + |sub|] == s[1..][i..i + |sub|];
          assert OccursAt(sub, s, i + 1);
        }
      }
      assert (exists i :: OccursAt(sub, s, i)) ==> b by {
        if exists i :: OccursAt(sub, s, i) {
          var i :| OccursAt(sub, s, i);
          assert i != 0;
          assert s[1..][i - 1..i - 1 + |sub|] == s[i..i + |sub|];
          assert OccursAt(sub, s[1..], i - 1);
        }
      }
      b
  }

  /** The number of occurrences of `c` in `s`. */
  function CountChar(s: string, c: char): (n: nat)
    ensures n <= |s|
    ensures n == 0 <==> c !in s
  {
    if s == [] then 0 else (if s[0] == c then 1 else 0) + CountChar(s[1..], c)
  }

  lemma {:induction false} CountCharAppend(a: string, b: string, c: char)
    ensures CountChar(a + b, c) == CountChar(a, c) + CountChar(b, c)
    decreases |a|
  {
    if a == [] {
      assert a + b == b;
    } else {
      CountCharAppend(a[1..], b, c);
      assert (a + b)[1..] == a[1..] + b;
    }
  }

  /** The first index of `c` in `s`. */
  function IndexOf(s: string, c: char): (i: nat)
    requires c in s
    ensures i < |s| && s[i] == c
    ensures forall k :: 0 <= k < i ==> s[k] != c
  {
    if s[0] == c then 0 else 1 + IndexOf(s[1..], c)
  }

  /** A first occurrence found by hand is the one `IndexOf` returns. */
  lemma IndexOfIsFirst(s: string, c: char, i: nat)
    requires i < |s| && s[i] == c && forall k :: 0 <= k < i ==> s[k] != c
    ensures IndexOf(s, c) == i
  {
    var j := IndexOf(s, c);
    assert !(j < i) && !(i < j);
  }

  /** The last index of `c` in `s`. */
  function LastIndexOf(s: string, c: char): (i: nat)
    requires c in s
    ensures i < |s| && s[i] == c
    ensures forall k :: i < k < |s| ==> s[k] != c
  {
    if s[|s| - 1] == c then |s| - 1
    else
      assert c in s[..|s| - 1] by {
        var k :| 0 <= k < |s| && s[k] == c;
        assert k < |s| - 1 && s[..|s| - 1][k] == c;
      }
      LastIndexOf(s[..|s| - 1], c)
  }

  /** One character read by `SplitOn`: a separator starts a new field in
      front of the fields `t` of the rest, any other character joins the
      first of them. */
  function PushChar<T(==)>(h: T, sep: T, t: seq<seq<T>>): (r: seq<seq<T>>)
    requires |t| >= 1
    ensures |r| == if h == sep then |t| + 1 else |t|
    ensures h == sep ==> r[0] == [] && r[1..] == t
    ensures h != sep ==> r[0] == [h] + t[0] && r[1..] == t[1..]
  {
    if h == sep then [[]] + t else [[h] + t[0]] + t[1..]
  }

  /** The step does not look past the first field. */
  lemma PushCharAppend<T>(h: T, sep: T, a: seq<seq<T>>, b: seq<seq<T>>)
    requires |a| >= 1
    ensures PushChar(h, sep, a + b) == PushChar(h, sep, a) + b
  {
    assert (a + b)[0] == a[0] && (a + b)[1..] == a[1..] + b;
  }

  /** `s.split(c)` for a one-character separator (fields may be empty),
      read one character at a time. */
  function SplitOn(s: string, c: char): (parts: seq<string>)
    ensures |parts| >= 1
    ensures forall k :: 0 <= k < |parts| ==> c !in parts[k]
    decreases |s|
  {
    if s == [] then [[]]
    else
      var t := SplitOn(s[1..], c);
      var r := PushChar(s[0], c, t);
      assert forall k :: 1 <= k < |r| ==> r[k] == r[1..][k - 1];
      r
  }

  /** A string without the separator splits into itself. */
  lemma {:induction false} SplitWithout(s: string, c: char)
    requires c !in s
    ensures SplitOn(s, c) == [s]
    decreases |s|
  {
    if s != [] {
      SplitWithout(s[1..], c);
      assert [s[0]] + s[1..] == s;
    }
  }

  /** `sep.join(parts)`. */
  function Join(parts: seq<string>, sep: string): string
  {
    if |parts| == 0 then ""
    else if |parts| == 1 then parts[0]
    else parts[0] + sep + Join(parts[1..], sep)
  }

  lemma {:induction false} JoinAppend(a: seq<string>, b: seq<string>, sep: string)
    requires |a| > 0 && |b| > 0
    ensures Join(a + b, sep) == Join(a, sep) + sep + Join(b, sep)
    decreases |a|
  {
    if |a| == 1 {
      assert (a + b)[1..] == b;
    } else {
      JoinAppend(a[1..], b, sep);
      assert (a + b)[1..] == a[1..] + b;
    }
  }

  /** Gluing a prefix onto the first field glues it onto the join. */
  lemma JoinGlue(a: string, t: seq<string>, sep: string)
    requires |t| >= 1
    ensures Join([a + t[0]] + t[1..], sep) == a + Join(t, sep)
  {
    var parts := [a + t[0]] + t[1..];
    if |t| > 1 {
      assert parts[1..] == t[1..];
    }
  }

  /** Joining the fields of a split with the separator gives back the
      string, and the separator occurs once fewer than there are fields. */
  lemma {:induction false} SplitJoin(s: string, c: char)
    ensures Join(SplitOn(s, c), [c]) == s
    ensures CountChar(s, c) == |SplitOn(s, c)| - 1
    decreases |s|
  {
    if s != [] {
      var t := SplitOn(s[1..], c);
      SplitJoin(s[1..], c);
      assert s == [s[0]] + s[1..];
      if s[0] == c {
        assert ([[]] + t)[1..] == t;
      } else {
        JoinGlue([s[0]], t, [c]);
      }
    }
  }

  /** When every field is free of `c`, `c` occurs in the join exactly
      between fields. */
  lemma {:induction false} JoinCount(parts: seq<string>, c: char)
    requires |parts| > 0
    requires forall k :: 0 <= k < |parts| ==> c !in parts[k]
    ensures CountChar(Join(parts, [c]), c) == |parts| - 1
    decreases |parts|
  {
    if |parts| > 1 {
      JoinCount(parts[1..], c);
      CountCharAppend(parts[0] + [c], Join(parts[1..], [c]), c);
      CountCharAppend(parts[0], [c], c);
    }
  }

  // ---------------------------------------------------------------------
  // int() on decimal text, and str() of a natural number
  // ---------------------------------------------------------------------

  /** Digits with single underscores between digits, as Python 3.6+ accepts. */
  predicate WellFormedDigits(d: string) {
    && |d| > 0
    && IsAsciiDigit(d[0])
    && IsAsciiDigit(d[|d| - 1])
    && (forall k :: 0 <= k < |d| ==> IsAsciiDigit(d[k]) || d[k] == '_')
    && (forall k :: 0 <= k < |d| - 1 ==> !(d[k] == '_' && d[k + 1] == '_'))
  }

  /** The value of a digit string, underscores skipped, read left to right. */
  function DigitsValue(d: string): nat
    decreases |d|
  {
    if d == [] then 0
    else if IsAsciiDigit(d[|d| - 1]) then
      10 * DigitsValue(d[..|d| - 1]) + (d[|d| - 1] as int - '0' as int)
    else DigitsValue(d[..|d| - 1])
  }

  /** Python's `int(s)`: surrounding whitespace is ignored, one optional
      sign, then decimal digits; anything else raises ValueError. */
  function ParseInt(s: string): (r: Result<int>)
    ensures r.Failure? ==> r.error == ValueError
    ensures r.Failure? <==> !WellFormedDigits(
      var t := Strip(s); if |t| > 0 && (t[0] == '+' || t[0] == '-') then t[1..] else t)
  {
    var t := Strip(s);
    var neg := |t| > 0 && t[0] == '-';
    var d := if |t| > 0 && (t[0] == '+' || t[0] == '-') then t[1..] else t;
    if !WellFormedDigits(d) then Failure(ValueError)
    else
      var v: int := DigitsValue(d);
      Success(if neg then -v else v)
  }

  /** `str(n)` for a natural number. */
  function NatToString(n: nat): (s: string)
    ensures |s| > 0
    ensures forall k :: 0 <= k < |s| ==> IsAsciiDigit(s[k])
  {
    if n < 10 then [('0' as int + n) as char]
    else NatToString(n / 10) + [('0' as int + n % 10) as char]
  }

  lemma {:induction false} NatToStringValue(n: nat)
    ensures DigitsValue(NatToString(n)) == n
  {
    var s := NatToString(n);
    if n < 10 {
      assert s[..0] == [];
    } else {
      NatToStringValue(n / 10);
      assert s[..|s| - 1] == NatToString(n / 10);
    }
  }

  /** `int(str(n)) == n`: printing a number and parsing it back is the
      identity. */
  lemma ParseIntOfNatToString(n: nat)
    ensures ParseInt(NatToString(n)) == Success(n)
  {
    var s := NatToString(n);
    assert s[0] !in Whitespace;
    assert s[|s| - 1] !in Whitespace;
    assert LStrip(s, Whitespace) == s;
    assert RStrip(s, Whitespace) == s;
    NatToStringValue(n);
  }
}
