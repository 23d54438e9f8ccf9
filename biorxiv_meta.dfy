/** The metadata the medRxiv article handler reads off a page: the author
    list built from the `citation_author*` meta tags, the lower-cased DOI
    and the subject areas. The two copies of the spider differ only in how
    an author name without a space is split: one falls back to an empty
    first name, the other raises ValueError. */
module BiorxivMeta {
  import opened Wrappers
  import opened PyStrings

  // ---------------------------------------------------------------------
  // Names
  // ---------------------------------------------------------------------

  /** `fn, ln = t.rsplit(' ', maxsplit=1)` on the stripped content `t`;
      with `fallback`, a name without a space gives `('', t)`, without it
      the unpacking raises ValueError. */
  function SplitStripped(t: string, fallback: bool): (r: Result<(string, string)>)
    ensures r.Failure? <==> !fallback && ' ' !in t
    ensures r.Failure? ==> r.error == ValueError
    ensures r.Success? ==> ' ' !in r.value.1
    ensures r.Success? && ' ' in t ==> r.value.0 + " " + r.value.1 == t
    ensures r.Success? && ' ' !in t ==> r.value == ("", t)
  {
    if ' ' in t then
      var i := LastIndexOf(t, ' ');
      assert t == t[..i] + " " + t[i + 1..];
      Success((t[..i], t[i + 1..]))
    else if fallback then Success(("", t))
    else Failure(ValueError)
  }

  /** The name split of an author meta tag's content. */
  function SplitName(content: string, fallback: bool): Result<(string, string)> {
    SplitStripped(Strip(content), fallback)
  }

  /** The split is undone by joining with a space: the last name is the
      last space-free word, the first name everything before it. */
  lemma SplitNameRoundTrip(content: string, fallback: bool)
    requires SplitName(content, fallback).Success?
    ensures var (fn, ln) := SplitName(content, fallback).value;
      ' ' !in ln && (if fn == "" && ' ' !in Strip(content) then ln else fn + " " + ln) == Strip(content)
  {
  }

  // ---------------------------------------------------------------------
  // Attribute keys
  // ---------------------------------------------------------------------

  const AuthorTag := "citation_author"

  /** `name[len('citation_author'):]`, which is empty for a shorter name. */
  function AfterTag(name: string): (r: string)
    ensures |name| >= |AuthorTag| ==> name == name[..|AuthorTag|] + r
  {
    if |name| >= |AuthorTag| then name[|AuthorTag|..] else ""
  }

  /** `name[len('citation_author'):].strip('_').capitalize()`. */
  function AttrKey(name: string): (k: string)
    ensures |k| <= |AfterTag(name)|
  {
    Capitalize(StripChars(AfterTag(name), {'_'}))
  }

  /** `citation_author_institution` gives `Institution`: the underscores
      after the tag go and the rest is capitalised. */
  lemma AttrKeyOfSuffix(s: string)
    requires |s| > 0 && s[0] != '_' && s[|s| - 1] != '_'
    ensures AttrKey(AuthorTag + "_" + s) == Capitalize(s)
  {
    AfterTagOf(AuthorTag, "_" + s);
    StripOneLeading('_', s, {'_'});
  }

  lemma AfterTagOf(tag: string, t: string)
    requires tag == AuthorTag
    ensures AfterTag(tag + t) == t
  {
    assert (tag + t)[|tag|..] == t;
  }

  // ---------------------------------------------------------------------
  // Authors
  // ---------------------------------------------------------------------

  /** An author dictionary: the name and the list under each other key. */
  datatype Author = Author(fn: string, ln: string, attrs: map<string, seq<string>>)

  /** A meta tag's name and content, as the two parallel lists pair them. */
  datatype Meta = Meta(name: string, content: string)

  /** `zip(names, contents)`, which stops at the shorter list. */
  function Zip(names: seq<string>, contents: seq<string>): (r: seq<Meta>)
    ensures |r| == if |names| <= |contents| then |names| else |contents|
    ensures forall k :: 0 <= k < |r| ==> r[k] == Meta(names[k], contents[k])
  {
    var n := if |names| <= |contents| then |names| else |contents|;
    seq(n, k requires 0 <= k < n => Meta(names[k], contents[k]))
  }

  /** `authors[-1][key].append(content)`, creating the list first. Under
      `Name` the author holds its name dictionary, which has no `append`. */
  function AddValue(a: Author, key: string, v: string): (r: Result<Author>)
    ensures r.Failure? <==> key == "Name"
    ensures r.Failure? ==> r.error == AttributeError
    ensures r.Success? ==> r.value.fn == a.fn && r.value.ln == a.ln
    ensures r.Success? ==> r.value.attrs.Keys == a.attrs.Keys + {key}
    ensures r.Success? ==> r.value.attrs[key] == (if key in a.attrs then a.attrs[key] else []) + [v]
    ensures r.Success? ==> forall k :: k in a.attrs && k != key ==> r.value.attrs[k] == a.attrs[k]
  {
    if key == "Name" then Failure(AttributeError)
    else Success(a.(attrs := a.attrs[key := (if key in a.attrs then a.attrs[key] else []) + [v]]))
  }

  /** One iteration of the author loop, for a name split `split` and an
      attribute key derivation `key`. */
  function Step(authors: seq<Author>, m: Meta, split: string -> Result<(string, string)>, key: string -> string)
    : Result<seq<Author>>
  {
    if m.name == AuthorTag then
      var (fn, ln) :- split(m.content);
      Success(authors + [Author(fn, ln, map[])])
    else if authors == [] then Failure(IndexError)
    else
      var last :- AddValue(authors[|authors| - 1], key(m.name), m.content);
      Success(authors[..|authors| - 1] + [last])
  }

  /** The author list after the loop has seen `metas`; an exception ends
      the handler. */
  function Authors(metas: seq<Meta>, split: string -> Result<(string, string)>, key: string -> string)
    : Result<seq<Author>>
  {
    if metas == [] then Success([])
    else
      var before :- Authors(metas[..|metas| - 1], split, key);
      Step(before, metas[|metas| - 1], split, key)
  }

  /** The author list of one copy of the spider. */
  function AuthorsOf(metas: seq<Meta>, fallback: bool): Result<seq<Author>> {
    Authors(metas, c => SplitName(c, fallback), AttrKey)
  }

  /** The author loop of `handle_medrxiv`. */
  method AggregateAuthors(names: seq<string>, contents: seq<string>, fallback: bool)
    returns (r: Result<seq<Author>>)
    ensures r == AuthorsOf(Zip(names, contents), fallback)
  {
    var metas := Zip(names, contents);
    ghost var splitName := c => SplitName(c, fallback);
    var authors: seq<Author> := [];
    for i := 0 to |metas|
      invariant Authors(metas[..i], splitName, AttrKey) == Success(authors)
    {
      AuthorsSnoc(metas, i, splitName, AttrKey);
      var m := metas[i];
      if m.name == AuthorTag {
        var parts := SplitName(m.content, fallback);
        if parts.Failure? {
          AuthorsStops(metas, i + 1, splitName, AttrKey);
          return Failure(parts.error);
        }
        var (fn, ln) := parts.value;
        authors := authors + [Author(fn, ln, map[])];
      } else {
        if |authors| == 0 {
          AuthorsStops(metas, i + 1, splitName, AttrKey);
          return Failure(IndexError);
        }
        var added := AddValue(authors[|authors| - 1], AttrKey(m.name), m.content);
        if added.Failure? {
          AuthorsStops(metas, i + 1, splitName, AttrKey);
          return Failure(added.error);
        }
        authors := authors[..|authors| - 1] + [added.value];
      }
    }
    assert metas[..|metas|] == metas;
    return Success(authors);
  }

  lemma AuthorsSnoc(metas: seq<Meta>, i: nat, split: string -> Result<(string, string)>, key: string -> string)
    requires i < |metas| && Authors(metas[..i], split, key).Success?
    ensures Authors(metas[..i + 1], split, key) == Step(Authors(metas[..i], split, key).value, metas[i], split, key)
  {
    assert metas[..i + 1][..i] == metas[..i];
  }

  /** Once the loop has raised, the rest of the tags change nothing. */
  lemma {:induction false} AuthorsStops(metas: seq<Meta>, k: nat, split: string -> Result<(string, string)>, key: string -> string)
    requires k <= |metas| && Authors(metas[..k], split, key).Failure?
    ensures Authors(metas, split, key) == Authors(metas[..k], split, key)
    decreases |metas| - k
  {
    if k < |metas| {
      assert metas[..k + 1][..k] == metas[..k];
      AuthorsStops(metas, k + 1, split, key);
    } else {
      assert metas[..k] == metas;
    }
  }

  /** An attribute tag before the first author tag raises IndexError at
      `authors[-1]`. */
  lemma AttributeFirstFails(metas: seq<Meta>, split: string -> Result<(string, string)>, key: string -> string)
    requires |metas| > 0 && metas[0].name != AuthorTag
    ensures Authors(metas, split, key) == Failure(IndexError)
  {
    assert metas[..1][..0] == [];
    assert Authors(metas[..1], split, key) == Failure(IndexError);
    AuthorsStops(metas, 1, split, key);
  }

  /** The number of author tags. */
  function AuthorCount(metas: seq<Meta>): (n: nat)
    ensures n <= |metas|
  {
    if metas == [] then 0
    else AuthorCount(metas[..|metas| - 1]) + (if metas[|metas| - 1].name == AuthorTag then 1 else 0)
  }

  /** Each author tag makes exactly one author. */
  lemma {:induction false} OneAuthorPerTag(metas: seq<Meta>, split: string -> Result<(string, string)>, key: string -> string)
    requires Authors(metas, split, key).Success?
    ensures |Authors(metas, split, key).value| == AuthorCount(metas)
    decreases |metas|
  {
    if metas != [] {
      OneAuthorPerTag(metas[..|metas| - 1], split, key);
    }
  }

  /** The contents of the attribute tags of `block` whose key is `k`, in order. */
  function Gathered(block: seq<Meta>, k: string, key: string -> string): seq<string> {
    if block == [] then []
    else
      var m := block[|block| - 1];
      Gathered(block[..|block| - 1], k, key) + (if key(m.name) == k then [m.content] else [])
  }

  lemma GatheredSnoc(block: seq<Meta>, key: string -> string)
    requires block != []
    ensures forall k ::
              Gathered(block, k, key) ==
              Gathered(block[..|block| - 1], k, key) + (if key(block[|block| - 1].name) == k then [block[|block| - 1].content] else [])
  {
  }

  /** An attribute tag, whose key is not the author's `Name`. */
  predicate PlainAttribute(m: Meta, key: string -> string) {
    m.name != AuthorTag && key(m.name) != "Name"
  }

  /** The values under each key of an author, for the attribute tags that
      follow the author's tag: exactly the keys some tag gives, each with
      the contents of those tags in order. */
  ghost predicate CollectsBlock(a: Author, block: seq<Meta>, key: string -> string) {
    && (forall k :: k in a.attrs <==> Gathered(block, k, key) != [])
    && (forall k :: k in a.attrs ==> a.attrs[k] == Gathered(block, k, key))
  }

  /** An attribute tag adds its content to the last author. */
  lemma StepAdds(authors: seq<Author>, m: Meta, split: string -> Result<(string, string)>, key: string -> string)
    requires |authors| > 0 && PlainAttribute(m, key)
    ensures Step(authors, m, split, key) ==
              Success(authors[..|authors| - 1] + [AddValue(authors[|authors| - 1], key(m.name), m.content).value])
  {
  }

  lemma CollectsSnoc(a: Author, block: seq<Meta>, key: string -> string)
    requires block != [] && CollectsBlock(a, block[..|block| - 1], key)
    requires PlainAttribute(block[|block| - 1], key)
    ensures CollectsBlock(AddValue(a, key(block[|block| - 1].name), block[|block| - 1].content).value, block, key)
  {
    GatheredSnoc(block, key);
  }

  /** After `prefix`, the author tag `m` and the tags `block`, the loop
      holds one author more than after `prefix`: the split name of `m`,
      with the values of `block` grouped by key; the earlier authors are
      left alone. */
  ghost predicate AddsAuthor(prefix: seq<Meta>, m: Meta, block: seq<Meta>,
                             split: string -> Result<(string, string)>, key: string -> string)
    requires Authors(prefix, split, key).Success? && split(m.content).Success?
  {
    var before := Authors(prefix, split, key).value;
    var r := Authors(prefix + [m] + block, split, key);
    && r.Success? && |r.value| == |before| + 1 && r.value[..|before|] == before
    && r.value[|before|].fn == split(m.content).value.0
    && r.value[|before|].ln == split(m.content).value.1
    && CollectsBlock(r.value[|before|], block, key)
  }

  lemma AuthorsAppendOne(metas: seq<Meta>, x: Meta, split: string -> Result<(string, string)>, key: string -> string)
    requires Authors(metas, split, key).Success?
    ensures Authors(metas + [x], split, key) == Step(Authors(metas, split, key).value, x, split, key)
  {
    assert (metas + [x])[..|metas|] == metas;
  }

  lemma AddsAuthorStart(prefix: seq<Meta>, m: Meta, split: string -> Result<(string, string)>, key: string -> string)
    requires Authors(prefix, split, key).Success?
    requires m.name == AuthorTag && split(m.content).Success?
    ensures AddsAuthor(prefix, m, [], split, key)
  {
    assert prefix + [m] + [] == prefix + [m];
    AuthorsAppendOne(prefix, m, split, key);
  }

  /** Replacing the last of `|before| + 1` elements keeps the first `|before|`. */
  lemma ReplaceLast<T>(r0: seq<T>, before: seq<T>, x: T)
    requires |r0| == |before| + 1 && r0[..|before|] == before
    ensures var r := r0[..|r0| - 1] + [x]; |r| == |before| + 1 && r[..|before|] == before && r[|before|] == x
  {
  }

  lemma AddsAuthorStep(prefix: seq<Meta>, m: Meta, block: seq<Meta>,
                       split: string -> Result<(string, string)>, key: string -> string)
    requires Authors(prefix, split, key).Success? && split(m.content).Success?
    requires block != [] && PlainAttribute(block[|block| - 1], key)
    requires AddsAuthor(prefix, m, block[..|block| - 1], split, key)
    ensures AddsAuthor(prefix, m, block, split, key)
  {
    var before := Authors(prefix, split, key).value;
    var init, last := block[..|block| - 1], block[|block| - 1];
    var r0 := Authors(prefix + [m] + init, split, key).value;
    var a := r0[|before|];
    var a2 := AddValue(a, key(last.name), last.content).value;
    assert prefix + [m] + block == (prefix + [m] + init) + [last];
    AuthorsAppendOne(prefix + [m] + init, last, split, key);
    StepAdds(r0, last, split, key);
    assert Authors(prefix + [m] + block, split, key) == Success(r0[..|r0| - 1] + [a2]);
    ReplaceLast(r0, before, a2);
    assert a2.fn == a.fn && a2.ln == a.ln;
    CollectsSnoc(a, block, key);
  }

  /** An author tag followed by attribute tags adds one author, with the
      split name, holding the attributes' values grouped by key in the
      order of the tags; the authors before it are left alone. */
  lemma {:induction false} AuthorBlock(prefix: seq<Meta>, m: Meta, block: seq<Meta>,
                                       split: string -> Result<(string, string)>, key: string -> string)
    requires Authors(prefix, split, key).Success?
    requires m.name == AuthorTag && split(m.content).Success?
    requires forall n :: 0 <= n < |block| ==> PlainAttribute(block[n], key)
    ensures AddsAuthor(prefix, m, block, split, key)
    decreases |block|
  {
    if block == [] {
      AddsAuthorStart(prefix, m, split, key);
    } else {
      var init := block[..|block| - 1];
      forall n | 0 <= n < |init| ensures PlainAttribute(init[n], key) {
        assert init[n] == block[n];
      }
      AuthorBlock(prefix, m, init, split, key);
      AddsAuthorStep(prefix, m, block, split, key);
    }
  }

  // ---------------------------------------------------------------------
  // DOI and subject areas
  // ---------------------------------------------------------------------

  /** `entry['rel_doi'].lower()`: DOIs compare case-insensitively. */
  function Doi(relDoi: string): (r: string)
    ensures |r| == |relDoi|
    ensures forall k :: 0 <= k < |r| ==> !IsAsciiUpper(r[k])
    ensures Lower(r) == r
  {
    LowerIdempotent(relDoi);
    Lower(relDoi)
  }

  /** `list(filter(len, map(f, texts)))`. */
  function NonEmptyImages(texts: seq<string>, f: string -> string): (r: seq<string>)
    ensures |r| <= |texts|
    ensures forall k :: 0 <= k < |r| ==> r[k] != ""
  {
    if texts == [] then []
    else
      var s := f(texts[|texts| - 1]);
      NonEmptyImages(texts[..|texts| - 1], f) + (if s == "" then [] else [s])
  }

  lemma {:induction false} NonEmptyImagesMembers(texts: seq<string>, f: string -> string)
    ensures forall s :: s in NonEmptyImages(texts, f) <==> s != "" && exists k :: 0 <= k < |texts| && f(texts[k]) == s
    decreases |texts|
  {
    if texts != [] {
      var init := texts[..|texts| - 1];
      NonEmptyImagesMembers(init, f);
      assert forall k :: 0 <= k < |init| ==> init[k] == texts[k];
      forall s | s != "" && (exists k :: 0 <= k < |texts| && f(texts[k]) == s) ensures s in NonEmptyImages(texts, f) {
        var k :| 0 <= k < |texts| && f(texts[k]) == s;
        if k < |init| {
          assert f(init[k]) == s;
        }
      }
    }
  }

  /** `list(filter(len, map(str.strip, texts)))`. */
  function SubjectAreas(texts: seq<string>): (r: seq<string>)
    ensures |r| <= |texts|
    ensures forall k :: 0 <= k < |r| ==> r[k] != ""
  {
    NonEmptyImages(texts, Strip)
  }

  /** The subject areas are exactly the non-empty stripped texts. */
  lemma SubjectAreasMembers(texts: seq<string>)
    ensures forall s :: s in SubjectAreas(texts) <==> s != "" && exists k :: 0 <= k < |texts| && Strip(texts[k]) == s
  {
    NonEmptyImagesMembers(texts, Strip);
  }

  /** Every subject area is stripped already. */
  lemma {:induction false} SubjectAreasStripped(texts: seq<string>)
    ensures forall s :: s in SubjectAreas(texts) ==> Strip(s) == s
  {
    SubjectAreasMembers(texts);
    forall s | s in SubjectAreas(texts) ensures Strip(s) == s {
      var k :| 0 <= k < |texts| && Strip(texts[k]) == s;
      StripCharsIdempotent(texts[k], Whitespace);
    }
  }
}
