/** The Public Health Ontario spider's pure parts: the depth-first search
    for an "abstract" section in the structure the HTML paragraph extractor
    returns, the sanitised PDF file name, and the rule that skips a listed
    article that is not newer than the stored one. */
module PublicHealthOntario {
  import opened Wrappers
  import opened PyStrings

  /** A value of the extractor's result: a string, a section dictionary
      with a `name` and a `content`, a list, or anything else (None, a
      number). */
  datatype Node =
    | Text(s: string)
    | Section(name: string, content: Node)
    | Items(items: seq<Node>)
    | Other

  // ---------------------------------------------------------------------
  // The section name test
  // ---------------------------------------------------------------------

  /** A character of `\w`, for the ASCII range. */
  predicate IsWordChar(c: char) { IsAsciiAlnum(c) || c == '_' }

  /** `re.sub(r'[^\w]+', '', s)`: the word characters of `s`, in order. */
  function WordChars(s: string): (r: string)
    ensures |r| <= |s|
    ensures forall k :: 0 <= k < |r| ==> IsWordChar(r[k])
    ensures forall c :: c in r <==> c in s && IsWordChar(c)
  {
    if s == [] then []
    else if IsWordChar(s[0]) then [s[0]] + WordChars(s[1..])
    else WordChars(s[1..])
  }

  /** The name of an abstract section. */
  predicate IsAbstractName(name: string) {
    Lower(WordChars(name)) == "abstract"
  }

  lemma {:induction false} WordCharsAppend(a: string, b: string)
    ensures WordChars(a + b) == WordChars(a) + WordChars(b)
    decreases |a|
  {
    if a != [] {
      var x, y := WordChars(a[1..]), WordChars(b);
      assert (a + b)[0] == a[0] && (a + b)[1..] == a[1..] + b;
      WordCharsAppend(a[1..], b);
      if IsWordChar(a[0]) {
        assert [a[0]] + (x + y) == ([a[0]] + x) + y;
      }
    } else {
      assert a + b == b;
    }
  }

  lemma {:induction false} NoWordChars(s: string)
    requires forall k :: 0 <= k < |s| ==> !IsWordChar(s[k])
    ensures WordChars(s) == []
    decreases |s|
  {
    if s != [] {
      NoWordChars(s[1..]);
    }
  }

  /** Spaces and punctuation anywhere around the name do not matter. */
  lemma SectionNameIgnoresPunctuation(p: string, name: string, q: string)
    requires forall k :: 0 <= k < |p| ==> !IsWordChar(p[k])
    requires forall k :: 0 <= k < |q| ==> !IsWordChar(q[k])
    ensures IsAbstractName(p + name + q) <==> IsAbstractName(name)
  {
    WordCharsAppend(p + name, q);
    WordCharsAppend(p, name);
    NoWordChars(p);
    NoWordChars(q);
    assert WordChars(p + name + q) == WordChars(name);
  }

  // ---------------------------------------------------------------------
  // find_section
  // ---------------------------------------------------------------------

  /** The string values among the items, in order. */
  function Strings(xs: seq<Node>): (r: seq<string>)
    ensures |r| <= |xs|
    ensures forall s :: s in r <==> Text(s) in xs
  {
    if xs == [] then []
    else
      var rest := Strings(xs[1..]);
      assert forall x :: x in xs[1..] ==> x in xs;
      if xs[0].Text? then [xs[0].s] + rest else rest
  }

  /** `list(filter(lambda x: isinstance(x, str), content))`: iterating a
      list gives its items, a string its characters and a section
      dictionary its two keys; anything else is not iterable. */
  function StringChildren(content: Node): (r: Result<seq<string>>)
    ensures r.Failure? <==> content.Other?
    ensures r.Failure? ==> r.error == TypeError
    ensures content.Items? ==> r == Success(Strings(content.items))
  {
    match content
    case Items(xs) => Success(Strings(xs))
    case Text(s) => Success(seq(|s|, k requires 0 <= k < |s| => [s[k]]))
    case Section(_, _) => Success(["name", "content"])
    case Other => Failure(TypeError)
  }

  /** A result that ends the search: an error, or a non-empty list. */
  predicate Decisive(r: Result<seq<string>>) {
    r.Failure? || |r.value| > 0
  }

  /** `find_section(obj)`. */
  function FindSection(n: Node): (r: Result<seq<string>>)
    ensures r.Failure? ==> r.error == TypeError
    decreases n, 1
  {
    match n
    case Section(name, content) =>
      if IsAbstractName(name) then StringChildren(content)
      else if content.Items? then FirstFound(content.items, 0)
      else Success([])
    case Items(xs) => FirstFound(xs, 0)
    case _ => Success([])
  }

  /** The loop `for i in ...: r = find_section(i); if r: return r`, from
      the `k`-th item, falling through to `return []`. */
  function FirstFound(xs: seq<Node>, k: nat): (r: Result<seq<string>>)
    ensures r.Failure? ==> r.error == TypeError
    decreases Items(xs), 0, |xs| - k
  {
    if k >= |xs| then Success([])
    else
      var r := FindSection(xs[k]);
      if Decisive(r) then r else FirstFound(xs, k + 1)
  }

  /** `find_abstract_by_parsing` on the extracted structure: the search's
      result is always a list, so it is returned as it is. */
  function FindAbstract(root: Node): (r: Result<seq<string>>)
    ensures r.Success? ==> forall s :: s in r.value ==> FoundIn(root, s)
    ensures r.Failure? ==> r.error == TypeError
  {
    FoundOnlyInAbstracts(root);
    FindSection(root)
  }

  // ---------------------------------------------------------------------
  // A reference definition: the first decisive outcome in visiting order
  // ---------------------------------------------------------------------

  /** What each abstract section met by a depth-first, left-to-right walk
      gives, in visiting order; the walk does not enter abstract sections
      nor the contents of other sections that are not lists. */
  function Outcomes(n: Node): seq<Result<seq<string>>>
    decreases n, 1
  {
    match n
    case Section(name, content) =>
      if IsAbstractName(name) then [StringChildren(content)]
      else if content.Items? then OutcomesFrom(content.items, 0)
      else []
    case Items(xs) => OutcomesFrom(xs, 0)
    case _ => []
  }

  function OutcomesFrom(xs: seq<Node>, k: nat): seq<Result<seq<string>>>
    decreases Items(xs), 0, |xs| - k
  {
    if k >= |xs| then [] else Outcomes(xs[k]) + OutcomesFrom(xs, k + 1)
  }

  /** The first decisive outcome, or the empty list when there is none. */
  function FirstDecisive(os: seq<Result<seq<string>>>): (r: Result<seq<string>>)
    ensures Decisive(r) ==> r in os
    ensures !Decisive(r) ==> r == Success([]) && forall o :: o in os ==> !Decisive(o)
  {
    if os == [] then Success([])
    else if Decisive(os[0]) then os[0]
    else
      assert forall o :: o in os[1..] ==> o in os;
      FirstDecisive(os[1..])
  }

  lemma {:induction false} FirstDecisiveAppend(a: seq<Result<seq<string>>>, b: seq<Result<seq<string>>>)
    ensures FirstDecisive(a + b) == if Decisive(FirstDecisive(a)) then FirstDecisive(a) else FirstDecisive(b)
    decreases |a|
  {
    if a != [] {
      assert (a + b)[0] == a[0];
      assert (a + b)[1..] == a[1..] + b;
      FirstDecisiveAppend(a[1..], b);
    } else {
      assert a + b == b;
    }
  }

  /** The search returns the first decisive outcome of the walk: the
      first abstract section with string children (or the first error),
      and an empty list when no abstract section has any. */
  lemma {:induction false} FindSectionIsFirstDecisive(n: Node)
    ensures FindSection(n) == FirstDecisive(Outcomes(n))
    decreases n, 1
  {
    match n
    case Section(name, content) =>
      if !IsAbstractName(name) && content.Items? {
        FirstFoundIsFirstDecisive(content.items, 0);
      }
    case Items(xs) =>
      FirstFoundIsFirstDecisive(xs, 0);
    case _ =>
  }

  lemma {:induction false} FirstFoundIsFirstDecisive(xs: seq<Node>, k: nat)
    ensures FirstFound(xs, k) == FirstDecisive(OutcomesFrom(xs, k))
    decreases Items(xs), 0, |xs| - k
  {
    if k < |xs| {
      FindSectionIsFirstDecisive(xs[k]);
      FirstFoundIsFirstDecisive(xs, k + 1);
      FirstDecisiveAppend(Outcomes(xs[k]), OutcomesFrom(xs, k + 1));
    }
  }

  /** An abstract section without string children does not end the
      search: the siblings after it are searched. */
  lemma EmptyMatchContinues(name: string, content: Node, rest: seq<Node>)
    requires IsAbstractName(name) && StringChildren(content) == Success([])
    ensures FindSection(Items([Section(name, content)] + rest)) == FindSection(Items(rest))
  {
    var xs := [Section(name, content)] + rest;
    assert FindSection(xs[0]) == Success([]);
    assert FirstFound(xs, 0) == FirstFound(xs, 1);
    FirstFoundShift(xs, 1);
    assert xs[1..] == rest;
  }

  lemma {:induction false} FirstFoundShift(xs: seq<Node>, k: nat)
    requires 1 <= k <= |xs|
    ensures FirstFound(xs, k) == FirstFound(xs[1..], k - 1)
    decreases |xs| - k
  {
    if k < |xs| {
      FirstFoundShift(xs, k + 1);
      assert xs[1..][k - 1] == xs[k];
    }
  }

  // ---------------------------------------------------------------------
  // Where found strings come from
  // ---------------------------------------------------------------------

  /** `s` is one of the strings some abstract section of `n` yields. */
  ghost predicate FoundIn(n: Node, s: string) {
    exists o :: o in Outcomes(n) && o.Success? && s in o.value
  }

  /** Every string the search returns comes from an abstract section. */
  lemma FoundOnlyInAbstracts(n: Node)
    ensures FindSection(n).Success? ==> forall s :: s in FindSection(n).value ==> FoundIn(n, s)
  {
    FindSectionIsFirstDecisive(n);
  }

  /** Without an abstract section anywhere on the walk, the search returns
      an empty list. */
  lemma NoAbstractFindsNothing(n: Node)
    requires Outcomes(n) == []
    ensures FindSection(n) == Success([])
  {
    FindSectionIsFirstDecisive(n);
  }

  // ---------------------------------------------------------------------
  // The PDF file name
  // ---------------------------------------------------------------------

  /** `re.sub(r'[^a-zA-Z0-9]', '-', title)`. */
  function Sanitized(title: string): (r: string)
    ensures |r| == |title|
    ensures forall k :: 0 <= k < |r| ==> r[k] == (if IsAsciiAlnum(title[k]) then title[k] else '-')
  {
    seq(|title|, k requires 0 <= k < |title| => if IsAsciiAlnum(title[k]) then title[k] else '-')
  }

  /** The file name the PDF is saved under. */
  function PdfFileName(title: string): (r: string)
    ensures |r| == |title| + 4 && r[|title|..] == ".pdf"
    ensures forall k :: 0 <= k < |title| ==> IsAsciiAlnum(r[k]) || r[k] == '-'
  {
    Sanitized(title) + ".pdf"
  }

  /** Sanitising keeps the letters and digits in place and is idempotent;
      only the title's alphanumerics and the positions of the rest
      survive in the name. */
  lemma SanitizedIdempotent(title: string)
    ensures Sanitized(Sanitized(title)) == Sanitized(title)
    ensures forall t ::
              (&& |t| == |title|
               && (forall k :: 0 <= k < |t| ==> (IsAsciiAlnum(t[k]) <==> IsAsciiAlnum(title[k])))
               && (forall k :: 0 <= k < |t| && IsAsciiAlnum(t[k]) ==> t[k] == title[k]))
              ==> PdfFileName(t) == PdfFileName(title)
  {
    forall t | |t| == |title| && (forall k :: 0 <= k < |t| ==> (IsAsciiAlnum(t[k]) <==> IsAsciiAlnum(title[k]))) &&
               (forall k :: 0 <= k < |t| && IsAsciiAlnum(t[k]) ==> t[k] == title[k])
      ensures PdfFileName(t) == PdfFileName(title)
    {
      assert Sanitized(t) == Sanitized(title);
    }
  }

  // ---------------------------------------------------------------------
  // The skip rule of parse
  // ---------------------------------------------------------------------

  /** Python's `a < b` on strings: code point by code point, a proper
      prefix first. */
  predicate StrLess(a: string, b: string)
    decreases |a|
  {
    if a == [] then b != []
    else if b == [] then false
    else if a[0] != b[0] then a[0] < b[0]
    else StrLess(a[1..], b[1..])
  }

  /** Python's `a >= b` on strings. */
  predicate StrAtLeast(a: string, b: string) { !StrLess(a, b) }

  /** The string order is total and strict. */
  lemma {:induction false} StrLessTrichotomy(a: string, b: string)
    ensures !(StrLess(a, b) && StrLess(b, a))
    ensures StrLess(a, b) || a == b || StrLess(b, a)
    ensures !StrLess(a, a)
    decreases |a|
  {
    if a != [] && b != [] {
      StrLessTrichotomy(a[1..], b[1..]);
      if a[0] == b[0] && a[1..] == b[1..] {
        assert a == [a[0]] + a[1..] && b == [b[0]] + b[1..];
      }
    } else if a != [] {
      StrLessTrichotomy(a[1..], a[1..]);
    }
  }

  lemma {:induction false} StrLessTransitive(a: string, b: string, c: string)
    requires StrLess(a, b) && StrLess(b, c)
    ensures StrLess(a, c)
    decreases |a|
  {
    if a != [] && b != [] && c != [] && a[0] == b[0] && b[0] == c[0] {
      StrLessTransitive(a[1..], b[1..], c[1..]);
    }
  }

  /** `synopsis is None or (old_item is not None and
      old_item['Date_Created'] >= date_created)`: `stored` is the stored
      article's date when there is one. Comparing with None raises
      TypeError. */
  function ShouldSkip(synopsis: Option<string>, stored: Option<Option<string>>, dateCreated: Option<string>)
    : (r: Result<bool>)
    ensures synopsis.None? ==> r == Success(true)
    ensures synopsis.Some? && stored.None? ==> r == Success(false)
    ensures r.Failure? <==> synopsis.Some? && stored.Some? && (stored.value.None? || dateCreated.None?)
    ensures r.Failure? ==> r.error == TypeError
  {
    if synopsis.None? then Success(true)
    else if stored.None? then Success(false)
    else if stored.value.None? || dateCreated.None? then Failure(TypeError)
    else Success(StrAtLeast(stored.value.value, dateCreated.value))
  }

  /** A listed article with a synopsis is processed exactly when nothing is
      stored under its link or its date is strictly later than the stored
      one; so the same listing is never processed twice. */
  lemma ProcessedOnlyWhenNewer(synopsis: string, stored: string, dateCreated: string)
    ensures (ShouldSkip(Some(synopsis), Some(Some(stored)), Some(dateCreated)) == Success(false))
              <==> StrLess(stored, dateCreated)
    ensures ShouldSkip(Some(synopsis), Some(Some(dateCreated)), Some(dateCreated)) == Success(true)
  {
    StrLessTrichotomy(dateCreated, dateCreated);
  }
}
