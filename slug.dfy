/**
 * app/utils/slug.py: `slugify_part` (lower-case, drop every character outside `[a-z0-9\s-]`,
 * turn each run of whitespace and hyphens into one hyphen, trim hyphens) and
 * `generate_club_slug` (slugify each usable part and join the non-empty results with hyphens).
 */
module Slug {
  import opened Text

  // ---- the well-formedness the slug code establishes ----

  predicate IsSlugChar(c: char) { IsLowerAlnum(c) || c == '-' }

  /** Only `[a-z0-9-]`, no hyphen at either end, never two hyphens in a row. */
  predicate IsSlug(s: string) {
    && (forall i :: 0 <= i < |s| ==> IsSlugChar(s[i]))
    && (s != [] ==> s[0] != '-' && s[|s| - 1] != '-')
    && (forall i :: 0 <= i < |s| - 1 ==> !(s[i] == '-' && s[i + 1] == '-'))
  }

  // ---- the three substitutions ----

  /** The class `[\s-]`. */
  predicate IsSep(c: char) { IsSpace(c) || c == '-' }

  /** The class `[a-z0-9\s-]`. */
  predicate IsKept(c: char) { IsLowerAlnum(c) || IsSep(c) }

  /** `re.sub(r'[^a-z0-9\s-]', '', value)`. */
  function RemoveDisallowed(s: string): (r: string)
    ensures forall i :: 0 <= i < |r| ==> IsKept(r[i])
  {
    if s == [] then []
    else if IsKept(s[0]) then [s[0]] + RemoveDisallowed(s[1..])
    else RemoveDisallowed(s[1..])
  }

  /** The rest of a string after its leading run of `[\s-]`. */
  function DropSeps(s: string): (r: string)
    ensures |r| <= |s| && r == s[|s| - |r|..]
    ensures r != [] ==> !IsSep(r[0])
  {
    if s != [] && IsSep(s[0]) then DropSeps(s[1..]) else s
  }

  /** `re.sub(r'[\s-]+', '-', value)`: every maximal run of separators becomes one hyphen. */
  function CollapseSeps(s: string): (r: string)
    ensures s != [] ==> r != []
    ensures s != [] && !IsSep(s[0]) ==> r[0] == s[0]
    ensures forall i :: 0 <= i < |r| - 1 ==> !(r[i] == '-' && r[i + 1] == '-')
    decreases |s|
  {
    if s == [] then []
    else if IsSep(s[0]) then ['-'] + CollapseSeps(DropSeps(s[1..]))
    else [s[0]] + CollapseSeps(s[1..])
  }

  /** Every character of a string is in `[a-z0-9\s-]`. */
  predicate AllKept(s: string) {
    forall i :: 0 <= i < |s| ==> IsKept(s[i])
  }

  /** Every character of a string is in `[a-z0-9-]`. */
  predicate AllSlugChars(s: string) {
    forall i :: 0 <= i < |s| ==> IsSlugChar(s[i])
  }

  /** Collapsing turns `[a-z0-9\s-]` text into `[a-z0-9-]` text. */
  lemma {:induction false} CollapseGivesSlugChars(s: string)
    requires AllKept(s)
    ensures AllSlugChars(CollapseSeps(s))
    decreases |s|
  {
    if s != [] {
      var rest := if IsSep(s[0]) then DropSeps(s[1..]) else s[1..];
      var head := if IsSep(s[0]) then '-' else s[0];
      assert CollapseSeps(s) == [head] + CollapseSeps(rest);
      assert IsSlugChar(head);
      assert rest == s[|s| - |rest|..];
      assert AllKept(rest) by {
        forall i | 0 <= i < |rest| ensures IsKept(rest[i]) {
          assert rest[i] == s[|s| - |rest| + i];
        }
      }
      CollapseGivesSlugChars(rest);
      var t := CollapseSeps(rest);
      forall i | 0 <= i < |t| + 1 ensures IsSlugChar(([head] + t)[i]) {
        if i > 0 {
          assert ([head] + t)[i] == t[i - 1];
        }
      }
    }
  }

  /** `str.lstrip('-')`. */
  function StripDashLeft(s: string): (r: string)
    ensures |r| <= |s| && r == s[|s| - |r|..]
    ensures r != [] ==> r[0] != '-'
  {
    if s != [] && s[0] == '-' then StripDashLeft(s[1..]) else s
  }

  /** `str.rstrip('-')`. */
  function StripDashRight(s: string): (r: string)
    ensures |r| <= |s| && r == s[..|r|]
    ensures r != [] ==> r[|r| - 1] != '-'
  {
    if s != [] && s[|s| - 1] == '-' then StripDashRight(s[..|s| - 1]) else s
  }

  /** How many hyphens `str.lstrip('-')` removes. */
  function DashLead(s: string): (n: nat)
    ensures n <= |s|
  {
    |s| - |StripDashLeft(s)|
  }

  /** `str.strip('-')`: a slice of the input with no hyphen at either end. */
  function StripDashes(s: string): (r: string)
    ensures r != [] ==> r[0] != '-' && r[|r| - 1] != '-'
    ensures |r| <= |s| - DashLead(s) && r == s[DashLead(s)..DashLead(s) + |r|]
  {
    var l := StripDashLeft(s);
    var r := StripDashRight(l);
    assert r == s[|s| - |l|..|s| - |l| + |r|];
    r
  }

  /** `slugify_part`. */
  function SlugifyPart(value: string): string {
    StripDashes(CollapseSeps(RemoveDisallowed(Lower(value))))
  }

  // ---- what slugify_part guarantees ----

  /** The output of `slugify_part` is a well-formed slug. */
  lemma SlugifyPartIsSlug(value: string)
    ensures IsSlug(SlugifyPart(value))
  {
    var kept := RemoveDisallowed(Lower(value));
    CollapseGivesSlugChars(kept);
    StrippedIsSlug(CollapseSeps(kept));
  }

  /** Trimming the hyphens of collapsed `[a-z0-9-]` text leaves a slug. */
  lemma StrippedIsSlug(collapsed: string)
    requires AllSlugChars(collapsed)
    requires forall i :: 0 <= i < |collapsed| - 1 ==> !(collapsed[i] == '-' && collapsed[i + 1] == '-')
    ensures IsSlug(StripDashes(collapsed))
  {
    var r := StripDashes(collapsed);
    var k := DashLead(collapsed);
    SliceKeepsSlugText(collapsed, k, r);
  }

  /** A slice of `[a-z0-9-]` text without doubled hyphens has neither. */
  lemma SliceKeepsSlugText(s: string, k: nat, r: string)
    requires k + |r| <= |s| && r == s[k..k + |r|]
    requires forall i :: 0 <= i < |s| ==> IsSlugChar(s[i])
    requires forall i :: 0 <= i < |s| - 1 ==> !(s[i] == '-' && s[i + 1] == '-')
    ensures forall i :: 0 <= i < |r| ==> IsSlugChar(r[i])
    ensures forall i :: 0 <= i < |r| - 1 ==> !(r[i] == '-' && r[i + 1] == '-')
  {
    forall i | 0 <= i < |r| ensures IsSlugChar(r[i]) {
      assert r[i] == s[k + i];
    }
    forall i | 0 <= i < |r| - 1 ensures !(r[i] == '-' && r[i + 1] == '-') {
      assert r[i] == s[k + i] && r[i + 1] == s[k + i + 1];
    }
  }

  /** A well-formed slug passes every substitution unchanged. */
  lemma {:induction false} RemoveDisallowedOfSlug(s: string)
    requires forall i :: 0 <= i < |s| ==> IsSlugChar(s[i])
    ensures RemoveDisallowed(s) == s
  {
    if s != [] {
      RemoveDisallowedOfSlug(s[1..]);
    }
  }

  lemma {:induction false} CollapseOfSlugTail(s: string)
    requires forall i :: 0 <= i < |s| ==> IsSlugChar(s[i])
    requires forall i :: 0 <= i < |s| - 1 ==> !(s[i] == '-' && s[i + 1] == '-')
    requires s != [] ==> s[|s| - 1] != '-'
    ensures CollapseSeps(s) == s
    decreases |s|
  {
    if s != [] {
      assert !IsSpace(s[0]);
      if s[0] == '-' {
        assert |s| >= 2 && s[1] != '-' && !IsSpace(s[1]);
        assert DropSeps(s[1..]) == s[1..];
      }
      CollapseOfSlugTail(s[1..]);
    }
  }

  lemma LowerOfSlug(s: string)
    requires forall i :: 0 <= i < |s| ==> IsSlugChar(s[i])
    ensures Lower(s) == s
  {
    LowerLowered(s);
  }

  /** Slugifying a well-formed slug returns it unchanged. */
  lemma SlugIsFixpoint(s: string)
    requires IsSlug(s)
    ensures SlugifyPart(s) == s
  {
    LowerOfSlug(s);
    RemoveDisallowedOfSlug(s);
    CollapseOfSlugTail(s);
    assert StripDashLeft(s) == s;
    assert StripDashRight(s) == s;
  }

  /** `slugify_part` is idempotent. */
  lemma SlugifyPartIdempotent(value: string)
    ensures SlugifyPart(SlugifyPart(value)) == SlugifyPart(value)
  {
    SlugifyPartIsSlug(value);
    SlugIsFixpoint(SlugifyPart(value));
  }

  // ---- letters and digits survive, in order ----

  /** The letters and digits of a string, in order. */
  function Alnums(s: string): (r: string)
    ensures forall i :: 0 <= i < |r| ==> IsLowerAlnum(r[i])
  {
    if s == [] then []
    else if IsLowerAlnum(s[0]) then [s[0]] + Alnums(s[1..])
    else Alnums(s[1..])
  }

  lemma {:induction false} AlnumsAppend(a: string, b: string)
    ensures Alnums(a + b) == Alnums(a) + Alnums(b)
  {
    if a == [] {
      assert a + b == b;
    } else {
      var head := if IsLowerAlnum(a[0]) then [a[0]] else [];
      assert (a + b)[0] == a[0];
      assert (a + b)[1..] == a[1..] + b;
      AlnumsAppend(a[1..], b);
      calc {
        Alnums(a + b);
        head + Alnums(a[1..] + b);
        head + (Alnums(a[1..]) + Alnums(b));
        (head + Alnums(a[1..])) + Alnums(b);
        Alnums(a) + Alnums(b);
      }
    }
  }

  lemma {:induction false} AlnumsOfRemoveDisallowed(s: string)
    ensures Alnums(RemoveDisallowed(s)) == Alnums(s)
  {
    if s != [] {
      AlnumsOfRemoveDisallowed(s[1..]);
      if IsKept(s[0]) {
        assert RemoveDisallowed(s) == [s[0]] + RemoveDisallowed(s[1..]);
        AlnumsAppend([s[0]], RemoveDisallowed(s[1..]));
      }
    }
  }

  lemma {:induction false} AlnumsOfDropSeps(s: string)
    ensures Alnums(DropSeps(s)) == Alnums(s)
  {
    if s != [] && IsSep(s[0]) {
      assert !IsLowerAlnum(s[0]);
      AlnumsOfDropSeps(s[1..]);
    }
  }

  lemma {:induction false} AlnumsOfCollapse(s: string)
    ensures Alnums(CollapseSeps(s)) == Alnums(s)
    decreases |s|
  {
    if s != [] {
      if IsSep(s[0]) {
        var rest := DropSeps(s[1..]);
        AlnumsOfCollapse(rest);
        AlnumsOfDropSeps(s[1..]);
        AlnumsAppend(['-'], CollapseSeps(rest));
      } else {
        AlnumsOfCollapse(s[1..]);
        AlnumsAppend([s[0]], CollapseSeps(s[1..]));
      }
    }
  }

  lemma {:induction false} AlnumsOfStripDashLeft(s: string)
    ensures Alnums(StripDashLeft(s)) == Alnums(s)
  {
    if s != [] && s[0] == '-' {
      AlnumsOfStripDashLeft(s[1..]);
    }
  }

  lemma {:induction false} AlnumsOfStripDashRight(s: string)
    ensures Alnums(StripDashRight(s)) == Alnums(s)
  {
    if s != [] && s[|s| - 1] == '-' {
      var init := s[..|s| - 1];
      AlnumsOfStripDashRight(init);
      assert s == init + ['-'];
      AlnumsAppend(init, ['-']);
    }
  }

  /** `slugify_part` keeps exactly the letters and digits of the lower-cased input, in order. */
  lemma SlugifyPartKeepsAlnums(value: string)
    ensures Alnums(SlugifyPart(value)) == Alnums(Lower(value))
  {
    var kept := RemoveDisallowed(Lower(value));
    var collapsed := CollapseSeps(kept);
    AlnumsOfRemoveDisallowed(Lower(value));
    AlnumsOfCollapse(kept);
    AlnumsOfStripDashLeft(collapsed);
    AlnumsOfStripDashRight(StripDashLeft(collapsed));
  }

  // ---- generate_club_slug ----

  /** An element of the `parts` iterable: `None`, a `str`, or some other object (truthy or not). */
  datatype PartValue = NoneValue | Str(s: string) | NonStr(truthy: bool)

  /** The slugs that `generate_club_slug` keeps, in order. */
  function CleanedParts(parts: seq<PartValue>): (r: seq<string>)
    ensures |r| <= |parts|
  {
    if parts == [] then []
    else
      var p := parts[0];
      if p.Str? && p.s != [] && SlugifyPart(p.s) != [] then [SlugifyPart(p.s)] + CleanedParts(parts[1..])
      else CleanedParts(parts[1..])
  }

  /** Every kept part is a non-empty slug. */
  lemma {:induction false} CleanedPartsAreSlugs(parts: seq<PartValue>)
    ensures forall i :: 0 <= i < |CleanedParts(parts)| ==> CleanedParts(parts)[i] != [] && IsSlug(CleanedParts(parts)[i])
  {
    if parts != [] {
      CleanedPartsAreSlugs(parts[1..]);
      if parts[0].Str? {
        SlugifyPartIsSlug(parts[0].s);
      }
    }
  }

  /** `'-'.join(parts)`. */
  function Join(parts: seq<string>): string {
    if parts == [] then []
    else if |parts| == 1 then parts[0]
    else parts[0] + "-" + Join(parts[1..])
  }

  /** Joining two non-empty slugs with a hyphen gives a slug. */
  lemma JoinTwoSlugs(a: string, b: string)
    requires a != [] && b != [] && IsSlug(a) && IsSlug(b)
    ensures IsSlug(a + "-" + b)
  {
    var s := a + "-" + b;
    forall i | 0 <= i < |s| - 1 ensures !(s[i] == '-' && s[i + 1] == '-') {
      if i < |a| - 1 {
        assert s[i] == a[i] && s[i + 1] == a[i + 1];
      } else if i == |a| - 1 {
        assert s[i] == a[|a| - 1];
      } else if i == |a| {
        assert s[i + 1] == b[0];
      } else {
        assert s[i] == b[i - |a| - 1] && s[i + 1] == b[i - |a|];
      }
    }
  }

  /** Joining non-empty slugs gives a slug: no empty segment and no `--`. */
  lemma {:induction false} JoinIsSlug(parts: seq<string>)
    requires forall i :: 0 <= i < |parts| ==> parts[i] != [] && IsSlug(parts[i])
    ensures IsSlug(Join(parts))
    ensures parts != [] ==> Join(parts) != []
  {
    if |parts| > 1 {
      JoinIsSlug(parts[1..]);
      JoinTwoSlugs(parts[0], Join(parts[1..]));
    }
  }

  /** What `generate_club_slug` returns. */
  function ClubSlug(parts: seq<PartValue>): (r: string)
    ensures IsSlug(r)
  {
    CleanedPartsAreSlugs(parts);
    JoinIsSlug(CleanedParts(parts));
    Join(CleanedParts(parts))
  }

  /** `generate_club_slug`: the loop over the parts, appending each non-empty slug. */
  method GenerateClubSlug(parts: seq<PartValue>) returns (slug: string)
    ensures slug == ClubSlug(parts)
    ensures IsSlug(slug)
  {
    var cleaned: seq<string> := [];
    var i := |parts|;
    // the loop runs back to front so that `cleaned` is always CleanedParts of a suffix
    while i > 0
      invariant 0 <= i <= |parts|
      invariant cleaned == CleanedParts(parts[i..])
    {
      i := i - 1;
      var part := parts[i];
      assert parts[i..][1..] == parts[i + 1..];
      if part.NoneValue? || (part.Str? && part.s == []) || (part.NonStr? && !part.truthy) {
        continue;
      }
      if !part.Str? {
        continue;
      }
      var slugPart := SlugifyPart(part.s);
      if slugPart != [] {
        cleaned := [slugPart] + cleaned;
      }
    }
    assert parts[0..] == parts;
    slug := Join(cleaned);
  }

  /** Text without separators passes `re.sub(r'[\s-]+', '-', ...)` unchanged. */
  lemma {:induction false} CollapseWithoutSeps(s: string)
    requires forall i :: 0 <= i < |s| ==> !IsSep(s[i])
    ensures CollapseSeps(s) == s
  {
    if s != [] {
      CollapseWithoutSeps(s[1..]);
    }
  }

  /** One space between two separator-free words becomes one hyphen. */
  lemma {:induction false} CollapseOneSpace(a: string, b: string)
    requires forall i :: 0 <= i < |a| ==> !IsSep(a[i])
    requires forall i :: 0 <= i < |b| ==> !IsSep(b[i])
    ensures CollapseSeps(a + " " + b) == a + "-" + b
  {
    if a == [] {
      CollapseSpaceThenWord(b);
      assert a + " " + b == " " + b && a + "-" + b == "-" + b;
    } else {
      CollapseOneSpace(a[1..], b);
      CollapseWordHead(a, b);
    }
  }

  lemma CollapseSpaceThenWord(b: string)
    requires forall i :: 0 <= i < |b| ==> !IsSep(b[i])
    ensures CollapseSeps(" " + b) == "-" + b
  {
    var s := " " + b;
    assert s[0] == ' ' && s[1..] == b;
    assert DropSeps(b) == b;
    CollapseWithoutSeps(b);
  }

  lemma CollapseWordHead(a: string, b: string)
    requires a != [] && !IsSep(a[0])
    requires CollapseSeps(a[1..] + " " + b) == a[1..] + "-" + b
    ensures CollapseSeps(a + " " + b) == a + "-" + b
  {
    var s := a + " " + b;
    assert s[0] == a[0] && s[1..] == a[1..] + " " + b;
    assert a + "-" + b == [a[0]] + (a[1..] + "-" + b);
  }

  /** Two separator-free words joined by one space, as in "test club", collapse to one hyphen. */
  lemma CollapseTestClub(v: string)
    requires v == "test club"
    ensures CollapseSeps(v) == "test-club"
  {
    var a, b := "test", "club";
    assert v == a + " " + b;
    assert !IsSep(a[0]) && !IsSep(a[1]) && !IsSep(a[2]) && !IsSep(a[3]);
    assert !IsSep(b[0]) && !IsSep(b[1]) && !IsSep(b[2]) && !IsSep(b[3]);
    CollapseOneSpace(a, b);
  }

  lemma LowerTestClub(v: string)
    requires v == "Test Club"
    ensures Lower(v) == "test club"
  {
  }

  /** A string of allowed characters only passes `RemoveDisallowed` unchanged. */
  lemma {:induction false} RemoveDisallowedKeepsAllowed(s: string)
    requires forall i :: 0 <= i < |s| ==> IsKept(s[i])
    ensures RemoveDisallowed(s) == s
  {
    if s != [] {
      RemoveDisallowedKeepsAllowed(s[1..]);
    }
  }

  lemma KeepTestClub()
    ensures RemoveDisallowed("test club") == "test club"
  {
    var v := "test club";
    assert forall i :: 0 <= i < |v| ==> IsKept(v[i]);
    RemoveDisallowedKeepsAllowed(v);
  }

  lemma StripTestClub(v: string)
    requires v == "test-club"
    ensures StripDashes(v) == "test-club"
  {
  }

  /** The first part of the club-creation example: "Test Club" gives "test-club". */
  lemma SlugifyTestClub(v: string)
    requires v == "Test Club"
    ensures SlugifyPart(v) == "test-club"
  {
    LowerTestClub(v);
    KeepTestClub();
    CollapseTestClub(RemoveDisallowed(Lower(v)));
    StripTestClub(CollapseSeps(RemoveDisallowed(Lower(v))));
  }

  lemma SlugifyDE()
    ensures SlugifyPart("DE") == "de"
  {
    assert Lower("DE") == "de";
    assert RemoveDisallowed("de") == "de";
    CollapseWithoutSeps("de");
    assert StripDashes("de") == "de";
  }

  lemma CleanedDropsNone(parts: seq<PartValue>)
    requires parts == [NoneValue, NoneValue]
    ensures CleanedParts(parts) == []
  {
    assert parts[1..] == [NoneValue];
    assert parts[1..][1..] == [];
  }

  lemma CleanedDE(parts: seq<PartValue>)
    requires parts == [Str("DE"), NoneValue, NoneValue]
    ensures CleanedParts(parts) == ["de"]
  {
    SlugifyDE();
    CleanedDropsNone(parts[1..]);
  }

  lemma CleanedExample(parts: seq<PartValue>)
    requires parts == [Str("Test Club"), Str("DE"), NoneValue, NoneValue]
    ensures CleanedParts(parts) == ["test-club", "de"]
  {
    SlugifyTestClub(parts[0].s);
    CleanedDE(parts[1..]);
  }

  lemma JoinExample(cleaned: seq<string>)
    requires cleaned == ["test-club", "de"]
    ensures Join(cleaned) == "test-club-de"
  {
  }

  /** The example of the club-creation test: ["Test Club", "DE", None, None] gives "test-club-de". */
  lemma ClubSlugExample(parts: seq<PartValue>)
    requires parts == [Str("Test Club"), Str("DE"), NoneValue, NoneValue]
    ensures ClubSlug(parts) == "test-club-de"
  {
    CleanedExample(parts);
    JoinExample(CleanedParts(parts));
  }
}
