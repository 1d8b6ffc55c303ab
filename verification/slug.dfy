/** The partition slug of the employment writer (`slugify`): lower-case, drop
    commas, turn hyphens into underscores, delete everything outside
    `[a-z0-9_ ]`, turn spaces into underscores, strip underscores at both ends. */
module Slug {

  predicate SlugChar(c: char) {
    'a' <= c <= 'z' || '0' <= c <= '9' || c == '_'
  }

  /** A finished slug: only `[a-z0-9_]`, and no underscore at either end. */
  predicate IsSlug(s: string) {
    && (forall i :: 0 <= i < |s| ==> SlugChar(s[i]))
    && (|s| > 0 ==> s[0] != '_' && s[|s| - 1] != '_')
  }

  predicate IsUpperAscii(c: char) {
    'A' <= c <= 'Z'
  }

  /** An ASCII capital's lower-case letter; any other character unchanged. */
  function LowerAscii(c: char): char {
    if IsUpperAscii(c) then (c as int + 32) as char else c
  }

  /** Python's `str.lower` on one character, as far as it can matter to a
      slug: ASCII capitals, plus the two non-ASCII characters whose lower
      case contains an ASCII letter (U+0130 lowers to "i" + U+0307, the
      Kelvin sign U+212A to "k"). Every other character is kept as is: its
      Python lower case is never an ASCII letter, digit, space, comma,
      hyphen or underscore, so the later filter treats both forms alike. */
  function LowerChar(c: char): (r: string)
    ensures forall i :: 0 <= i < |r| ==> !IsUpperAscii(r[i])
    ensures !IsUpperAscii(c) && c != '\U{0130}' && c != '\U{212A}' ==> r == [c]
  {
    if IsUpperAscii(c) then [LowerAscii(c)]
    else if c == '\U{0130}' then "i\U{0307}"
    else if c == '\U{212A}' then "k"
    else [c]
  }

  /** No character of `s` is one of the two whose lower case is not a single ASCII-lowered character. */
  predicate NoSpecialLower(s: string) {
    forall i :: 0 <= i < |s| ==> s[i] != '\U{0130}' && s[i] != '\U{212A}'
  }

  /** `str.lower`: no ASCII capital survives; a string with nothing to lower
      is unchanged; and, away from U+0130 and U+212A, lowering works position
      by position, each ASCII capital becoming its lower-case letter. */
  function Lower(s: string): (r: string)
    ensures forall i :: 0 <= i < |r| ==> !IsUpperAscii(r[i])
    ensures (forall i :: 0 <= i < |s| ==> SlugChar(s[i])) ==> r == s
    ensures NoSpecialLower(s) ==> |r| == |s| && forall i :: 0 <= i < |s| ==> r[i] == LowerAscii(s[i])
  {
    if s == [] then []
    else
      var head := LowerChar(s[0]);
      var rest := Lower(s[1..]);
      assert forall i :: 0 <= i < |head + rest| ==> !IsUpperAscii((head + rest)[i]) by {
        forall i | 0 <= i < |head + rest|
          ensures !IsUpperAscii((head + rest)[i])
        {
          if i >= |head| {
            assert (head + rest)[i] == rest[i - |head|];
          }
        }
      }
      assert NoSpecialLower(s) ==> forall i :: 0 <= i < |s| ==> (head + rest)[i] == LowerAscii(s[i]) by {
        if NoSpecialLower(s) {
          assert NoSpecialLower(s[1..]) by {
            forall i | 0 <= i < |s[1..]| ensures s[1..][i] != '\U{0130}' && s[1..][i] != '\U{212A}' {
              assert s[1..][i] == s[i + 1];
            }
          }
          assert head == [LowerAscii(s[0])];
          forall i | 1 <= i < |s| ensures (head + rest)[i] == LowerAscii(s[i]) {
            assert (head + rest)[i] == rest[i - 1];
            assert s[1..][i - 1] == s[i];
          }
        }
      }
      head + rest
  }

  /** The characters of `s` that satisfy `keep`, in order. */
  function Filter(s: string, keep: char -> bool): (r: string)
    ensures |r| <= |s|
    ensures forall i :: 0 <= i < |r| ==> keep(r[i])
    ensures forall c :: c in r <==> c in s && keep(c)
    ensures (forall i :: 0 <= i < |s| ==> keep(s[i])) ==> r == s
  {
    if s == [] then []
    else
      var rest := Filter(s[1..], keep);
      assert forall c :: c in s <==> c == s[0] || c in s[1..];
      if keep(s[0]) then [s[0]] + rest else rest
  }

  /** `s.replace(a, b)` for single characters. */
  function Replace(s: string, a: char, b: char): (r: string)
    ensures |r| == |s|
    ensures forall i :: 0 <= i < |s| ==> r[i] == (if s[i] == a then b else s[i])
  {
    if s == [] then []
    else [if s[0] == a then b else s[0]] + Replace(s[1..], a, b)
  }

  /** `s.lstrip("_")`: the longest suffix not starting with '_', all removed characters being '_'. */
  function StripLeading(s: string): (r: string)
    ensures |r| <= |s| && r == s[|s| - |r|..]
    ensures forall i :: 0 <= i < |s| - |r| ==> s[i] == '_'
    ensures |r| > 0 ==> r[0] != '_'
  {
    if s != [] && s[0] == '_' then StripLeading(s[1..]) else s
  }

  /** `s.rstrip("_")`: the longest prefix not ending with '_', all removed characters being '_'. */
  function StripTrailing(s: string): (r: string)
    ensures |r| <= |s| && r == s[..|r|]
    ensures forall i :: |r| <= i < |s| ==> s[i] == '_'
    ensures |r| > 0 ==> r[|r| - 1] != '_'
  {
    if s != [] && s[|s| - 1] == '_' then StripTrailing(s[..|s| - 1]) else s
  }

  /** `s.strip("_")`: a contiguous piece of `s` with only underscores cut
      away on either side, and no underscore left at either end. */
  function Strip(s: string): (r: string)
    ensures |r| > 0 ==> r[0] != '_' && r[|r| - 1] != '_'
    ensures forall c :: c in r ==> c in s
    ensures exists a, b :: 0 <= a <= b <= |s| && r == s[a..b] && forall i :: 0 <= i < a || b <= i < |s| ==> s[i] == '_'
  {
    var l := StripLeading(s);
    var r := StripTrailing(l);
    assert forall c :: c in r ==> c in l;
    assert forall c :: c in l ==> c in s;
    StripPiece(s, l, r);
    r
  }

  /** Cutting a prefix of underscores and then a suffix of underscores leaves a contiguous piece. */
  lemma StripPiece(s: string, l: string, r: string)
    requires |l| <= |s| && l == s[|s| - |l|..] && forall i :: 0 <= i < |s| - |l| ==> s[i] == '_'
    requires |r| <= |l| && r == l[..|r|] && forall i :: |r| <= i < |l| ==> l[i] == '_'
    ensures exists a, b :: 0 <= a <= b <= |s| && r == s[a..b] && forall i :: 0 <= i < a || b <= i < |s| ==> s[i] == '_'
  {
    var a := |s| - |l|;
    var b := a + |r|;
    assert r == s[a..b];
    forall i | b <= i < |s| ensures s[i] == '_' {
      assert s[i] == l[i - a];
    }
  }

  predicate NotComma(c: char) {
    c != ','
  }

  /** The characters `re.sub(r"[^a-z0-9_ ]+", "", s)` keeps. */
  predicate SlugOrSpace(c: char) {
    SlugChar(c) || c == ' '
  }

  /** Everything `slugify` does before the final strip; every character
      ends up in `[a-z0-9_]`. */
  function Clean(s: string): (r: string)
    ensures forall i :: 0 <= i < |r| ==> SlugChar(r[i])
  {
    var lowered := Lower(s);
    var noCommas := Filter(lowered, NotComma);
    var underscored := Replace(noCommas, '-', '_');
    var kept := Filter(underscored, SlugOrSpace);
    Replace(kept, ' ', '_')
  }

  function Slugify(s: string): (r: string)
    ensures IsSlug(r)
  {
    Strip(Clean(s))
  }

  lemma ReplaceAbsent(s: string, a: char, b: char)
    requires forall i :: 0 <= i < |s| ==> s[i] != a
    ensures Replace(s, a, b) == s
  {
  }

  lemma StripKeepsSlugs(s: string)
    requires IsSlug(s)
    ensures Strip(s) == s
  {
    assert StripLeading(s) == s;
    assert StripTrailing(s) == s;
  }

  /** Every step of `Slugify` leaves a finished slug alone. */
  lemma SlugifyKeepsSlugs(s: string)
    requires IsSlug(s)
    ensures Slugify(s) == s
  {
    assert Lower(s) == s;
    assert Filter(s, NotComma) == s;
    ReplaceAbsent(s, '-', '_');
    assert Filter(s, SlugOrSpace) == s;
    ReplaceAbsent(s, ' ', '_');
    assert Clean(s) == s;
    StripKeepsSlugs(s);
  }

  /** Slugging is idempotent. */
  lemma SlugifyIdempotent(s: string)
    ensures Slugify(Slugify(s)) == Slugify(s)
  {
    SlugifyKeepsSlugs(Slugify(s));
  }

  /* Each step distributes over concatenation, and so does `Clean`. */

  lemma {:induction false} LowerAppend(a: string, b: string)
    ensures Lower(a + b) == Lower(a) + Lower(b)
    decreases |a|
  {
    if a != [] {
      assert (a + b)[0] == a[0];
      assert (a + b)[1..] == a[1..] + b;
      LowerAppend(a[1..], b);
      assert Lower(a + b) == LowerChar(a[0]) + Lower(a[1..] + b);
      assert Lower(a) == LowerChar(a[0]) + Lower(a[1..]);
    } else {
      assert a + b == b;
    }
  }

  lemma FilterCons(x: char, s: string, keep: char -> bool)
    ensures Filter([x] + s, keep) == (if keep(x) then [x] else []) + Filter(s, keep)
  {
    assert ([x] + s)[0] == x;
    assert ([x] + s)[1..] == s;
  }

  lemma {:induction false} FilterAppend(a: string, b: string, keep: char -> bool)
    ensures Filter(a + b, keep) == Filter(a, keep) + Filter(b, keep)
    decreases |a|
  {
    if a != [] {
      var x, t := a[0], a[1..];
      var head := if keep(x) then [x] else [];
      calc {
        Filter(a + b, keep);
      == { assert a + b == [x] + (t + b); FilterCons(x, t + b, keep); }
        head + Filter(t + b, keep);
      == { FilterAppend(t, b, keep); }
        head + (Filter(t, keep) + Filter(b, keep));
      == { assert head + (Filter(t, keep) + Filter(b, keep)) == (head + Filter(t, keep)) + Filter(b, keep); }
        (head + Filter(t, keep)) + Filter(b, keep);
      == { assert a == [x] + t; FilterCons(x, t, keep); }
        Filter(a, keep) + Filter(b, keep);
      }
    } else {
      assert a + b == b;
    }
  }

  lemma ReplaceAppend(a: string, b: string, x: char, y: char)
    ensures Replace(a + b, x, y) == Replace(a, x, y) + Replace(b, x, y)
  {
  }

  lemma CleanAppend(a: string, b: string)
    ensures Clean(a + b) == Clean(a) + Clean(b)
  {
    LowerAppend(a, b);
    var la, lb := Lower(a), Lower(b);
    FilterAppend(la, lb, NotComma);
    var fa, fb := Filter(la, NotComma), Filter(lb, NotComma);
    ReplaceAppend(fa, fb, '-', '_');
    var ra, rb := Replace(fa, '-', '_'), Replace(fb, '-', '_');
    FilterAppend(ra, rb, SlugOrSpace);
    ReplaceAppend(Filter(ra, SlugOrSpace), Filter(rb, SlugOrSpace), ' ', '_');
  }

  /** Characters that `Clean` maps one-to-one: ASCII letters, digits, '_', '-' and ' '. */
  predicate PlainChar(c: char) {
    IsUpperAscii(c) || SlugChar(c) || c == '-' || c == ' '
  }

  function PlainSlugChar(c: char): char
    requires PlainChar(c)
  {
    if c == '-' || c == ' ' then '_' else LowerAscii(c)
  }

  /** On plain text `Clean` works character by character. */
  lemma CleanPlain(w: string)
    requires forall i :: 0 <= i < |w| ==> PlainChar(w[i])
    ensures |Clean(w)| == |w|
    ensures forall i :: 0 <= i < |w| ==> Clean(w)[i] == PlainSlugChar(w[i])
  {
    assert NoSpecialLower(w);
    var lowered := Lower(w);
    assert Filter(lowered, NotComma) == lowered;
    var underscored := Replace(lowered, '-', '_');
    assert forall i :: 0 <= i < |underscored| ==> SlugOrSpace(underscored[i]);
    assert Filter(underscored, SlugOrSpace) == underscored;
  }

  lemma CleanPlainIs(w: string, expected: string)
    requires |expected| == |w|
    requires forall i :: 0 <= i < |w| ==> PlainChar(w[i]) && expected[i] == PlainSlugChar(w[i])
    ensures Clean(w) == expected
  {
    CleanPlain(w);
  }

  /** The slug of a name made of three parts whose cleaned forms are known. */
  lemma SlugOfParts(a: string, b: string, c: string, ca: string, cb: string, cc: string)
    requires Clean(a) == ca && Clean(b) == cb && Clean(c) == cc
    requires IsSlug(ca + cb + cc)
    ensures Slugify(a + b + c) == ca + cb + cc
  {
    CleanAppend(a + b, c);
    CleanAppend(a, b);
    StripKeepsSlugs(ca + cb + cc);
  }

  lemma CleanPortlandHead()
    ensures Clean("Portland-Vancouver-Hillsboro") == "portland_vancouver_hillsboro"
  {
    CleanPlainIs("Portland-Vancouver-Hillsboro", "portland_vancouver_hillsboro");
  }

  lemma CleanPortlandTail()
    ensures Clean("OR-WA") == "or_wa"
  {
    CleanPlainIs("OR-WA", "or_wa");
  }

  lemma CommaSpaceCleansToUnderscore()
    ensures Clean(", ") == "_"
  {
  }

  lemma PortlandSlugIsSlug()
    ensures IsSlug("portland_vancouver_hillsboro" + "_" + "or_wa")
  {
  }

  /** The Portland metro's partition slug: the comma goes, hyphens and the
      space become underscores, letters are lowered. (Written as pieces; the
      pieces join to "Portland-Vancouver-Hillsboro, OR-WA" and
      "portland_vancouver_hillsboro_or_wa".) */
  lemma PortlandSlug()
    ensures Slugify("Portland-Vancouver-Hillsboro" + ", " + "OR-WA")
         == "portland_vancouver_hillsboro" + "_" + "or_wa"
  {
    CleanPortlandHead();
    CleanPortlandTail();
    CommaSpaceCleansToUnderscore();
    PortlandSlugIsSlug();
    SlugOfParts("Portland-Vancouver-Hillsboro", ", ", "OR-WA", "portland_vancouver_hillsboro", "_", "or_wa");
  }

  lemma CleanCondo()
    ensures Clean("Condo") == "condo"
  {
    CleanPlainIs("Condo", "condo");
  }

  lemma CleanCoOp()
    ensures Clean("Co-op") == "co_op"
  {
    CleanPlainIs("Co-op", "co_op");
  }

  lemma CondoSlugIsSlug()
    ensures IsSlug("condo" + "" + "co_op")
  {
  }

  lemma SlashCleansToNothing()
    ensures Clean("/") == ""
  {
  }

  /** Characters outside `[a-z0-9_ ,-]` are deleted, not turned into
      underscores: "Condo/Co-op" slugs to "condoco_op". */
  lemma SlashIsDeleted()
    ensures Slugify("Condo" + "/" + "Co-op") == "condo" + "" + "co_op"
  {
    CleanCondo();
    CleanCoOp();
    SlashCleansToNothing();
    CondoSlugIsSlug();
    SlugOfParts("Condo", "/", "Co-op", "condo", "", "co_op");
  }

  lemma CleanTwoSpaces()
    ensures Clean("  ") == "__"
  {
    CleanPlainIs("  ", "__");
  }

  lemma CleanLetters()
    ensures Clean("a") == "a" && Clean("b") == "b"
  {
    CleanPlainIs("a", "a");
    CleanPlainIs("b", "b");
  }

  lemma RunSlugIsSlug()
    ensures IsSlug("a" + "__" + "b")
  {
  }

  /** Runs are not collapsed: two spaces give two underscores. */
  lemma RunsNotCollapsed()
    ensures Slugify("a" + "  " + "b") == "a" + "__" + "b"
  {
    CleanTwoSpaces();
    CleanLetters();
    RunSlugIsSlug();
    SlugOfParts("a", "  ", "b", "a", "__", "b");
  }
}
