/**
 * The project list page: the status options, the search-and-status filter over the
 * listed projects, and the choice of a placeholder image from a pool's address.
 */
module ProjectsPage {
  import opened Wrappers
  import opened JsStrings
  import PhaseCard
  import PoolQuery

  type Listing = PoolQuery.ProjectListing

  /** The selected status is `string | number`. */
  datatype Selection = Word(w: string) | Number(n: int)

  const All := Word("all")

  datatype StatusOption = StatusOption(value: Selection, caption: string)

  const ProjectStatuses: seq<StatusOption> := [
    StatusOption(All, "Todos"),
    StatusOption(Number(0), "Activo"),
    StatusOption(Number(1), "Financiado"),
    StatusOption(Number(2), "En Construcción"),
    StatusOption(Number(3), "Completado"),
    StatusOption(Number(4), "Reembolso")]

  /** After "Todos", option `n + 1` selects phase `n` and is captioned with the label the
      project cards show for that phase. */
  lemma StatusOptionsMatchCards()
    ensures |ProjectStatuses| == 6 && ProjectStatuses[0] == StatusOption(All, "Todos")
    ensures forall n :: 0 <= n < 5 ==>
      ProjectStatuses[n + 1] == StatusOption(Number(n), PhaseCard.PhaseLabel(n))
  {
  }

  // ---------------------------------------------------------------------------
  // Filtering
  // ---------------------------------------------------------------------------

  /** The search term occurs, ignoring case, in the project's name or in its url. */
  function MatchesSearch(p: Listing, term: string): (m: bool)
    ensures m <==> exists i :: OccursAt(Lower(p.name), Lower(term), i) || OccursAt(Lower(p.url), Lower(term), i)
  {
    var inName := Includes(Lower(p.name), Lower(term));
    var inUrl := Includes(Lower(p.url), Lower(term));
    assert inName ==> exists i :: OccursAt(Lower(p.name), Lower(term), i) || OccursAt(Lower(p.url), Lower(term), i);
    assert inUrl ==> exists i :: OccursAt(Lower(p.name), Lower(term), i) || OccursAt(Lower(p.url), Lower(term), i);
    assert (exists i :: OccursAt(Lower(p.name), Lower(term), i) || OccursAt(Lower(p.url), Lower(term), i)) ==> inName || inUrl;
    inName || inUrl
  }

  /** `selectedStatus === "all" || project.currentPhase === selectedStatus`: a phase is a
      number, so it is never strictly equal to a string. */
  function MatchesStatus(p: Listing, selected: Selection): (m: bool)
    ensures selected.Word? ==> (m <==> selected.w == "all")
    ensures selected.Number? ==> (m <==> selected.n == p.currentPhase)
  {
    selected == All || (selected.Number? && p.currentPhase == selected.n)
  }

  predicate Keep(p: Listing, term: string, selected: Selection) {
    MatchesSearch(p, term) && MatchesStatus(p, selected)
  }

  /** `projects.filter(...)`: the kept projects, in their order. */
  function FilterProjects(projects: seq<Listing>, term: string, selected: Selection): (kept: seq<Listing>)
    ensures |kept| <= |projects|
    ensures forall p :: p in kept <==> p in projects && Keep(p, term, selected)
    ensures forall p :: multiset(kept)[p] == if Keep(p, term, selected) then multiset(projects)[p] else 0
  {
    if projects == [] then []
    else
      var rest := FilterProjects(projects[1..], term, selected);
      assert projects == [projects[0]] + projects[1..];
      assert multiset(projects) == multiset{projects[0]} + multiset(projects[1..]);
      assert forall p :: p in projects <==> p == projects[0] || p in projects[1..];
      if Keep(projects[0], term, selected) then [projects[0]] + rest else rest
  }

  /** `filteredProjects`: an absent list gives no projects. */
  function FilteredProjects(projects: Option<seq<Listing>>, term: string, selected: Selection): (shown: seq<Listing>)
    ensures projects.None? ==> shown == []
    ensures projects.Some? ==> shown == FilterProjects(projects.value, term, selected)
  {
    if projects.None? then [] else FilterProjects(projects.value, term, selected)
  }

  /** `sub` is obtained from `s` by deleting elements, without reordering. */
  ghost predicate IsSubsequence(sub: seq<Listing>, s: seq<Listing>)
    decreases |s|
  {
    if sub == [] then true
    else if s == [] then false
    else (sub[0] == s[0] && IsSubsequence(sub[1..], s[1..])) || IsSubsequence(sub, s[1..])
  }

  lemma {:induction false} FilterIsSubsequence(projects: seq<Listing>, term: string, selected: Selection)
    ensures IsSubsequence(FilterProjects(projects, term, selected), projects)
  {
    if projects != [] {
      FilterIsSubsequence(projects[1..], term, selected);
    }
  }

  /** Filtering the filtered list again changes nothing. */
  lemma {:induction false} FilterIdempotent(projects: seq<Listing>, term: string, selected: Selection)
    ensures var once := FilterProjects(projects, term, selected);
      FilterProjects(once, term, selected) == once
  {
    if projects != [] {
      FilterIdempotent(projects[1..], term, selected);
      var rest := FilterProjects(projects[1..], term, selected);
      if Keep(projects[0], term, selected) {
        assert ([projects[0]] + rest)[1..] == rest;
      }
    }
  }

  /** An empty search with "Todos" selected shows every project, in order. */
  lemma {:induction false} EmptySearchAllShowsEverything(projects: seq<Listing>)
    ensures FilterProjects(projects, "", All) == projects
  {
    if projects != [] {
      EmptySearchMatches(projects[0]);
      EmptySearchAllShowsEverything(projects[1..]);
      assert [projects[0]] + projects[1..] == projects;
    }
  }

  /** An empty search term matches every project. */
  lemma EmptySearchMatches(p: Listing)
    ensures MatchesSearch(p, "")
  {
    IncludesEmpty(Lower(p.name));
  }

  /** Choosing phase `n` with an empty search keeps exactly the projects in phase `n`. */
  lemma PhaseSelectionKeepsThatPhase(projects: seq<Listing>, n: int)
    ensures forall p :: p in FilterProjects(projects, "", Number(n)) <==> p in projects && p.currentPhase == n
  {
    forall p | p in projects {
      EmptySearchMatches(p);
    }
  }

  /** A status given as text other than "all" matches no project. */
  lemma TextStatusMatchesNothing(projects: seq<Listing>, term: string, w: string)
    requires w != "all"
    ensures FilterProjects(projects, term, Word(w)) == []
  {
  }

  /** The search ignores letter case: terms with the same lower-case form, and projects
      whose names and urls have the same lower-case forms, are treated alike. */
  lemma SearchIgnoresCase(p: Listing, q: Listing, term: string, term': string)
    requires Lower(p.name) == Lower(q.name) && Lower(p.url) == Lower(q.url)
    requires Lower(term) == Lower(term')
    ensures MatchesSearch(p, term) <==> MatchesSearch(q, term')
  {
  }

  // ---------------------------------------------------------------------------
  // Placeholder image for a pool address
  // ---------------------------------------------------------------------------

  /** `parseInt(hex.slice(-8), 16)` where `hex` is the lower-cased address without its
      first "0x". */
  function AddressNumber(address: string): (number: Option<int>)
    ensures number.Some? ==> -0x1_0000_0000 < number.value < 0x1_0000_0000
  {
    TailNumber(Lower(address))
  }

  /** The number read from an already lower-cased address: at most eight digits. */
  function TailNumber(lowered: string): (number: Option<int>)
    ensures number.Some? ==> -0x1_0000_0000 < number.value < 0x1_0000_0000
  {
    var tail := SliceLast(ReplaceFirst(lowered, "0x", ""), 8);
    HexBoundMonotone(|tail|, 8);
    assert HexBound(8) == 0x1_0000_0000;
    ParseIntHex(tail)
  }

  /** The index `getImageMockFromAddress` computes for `count` images: the last eight
      characters of the lower-cased address without its first "0x", read as hexadecimal,
      then `%` the count. `None` is `NaN`: no hexadecimal digit there, or no image. */
  function MockIndex(address: string, count: nat): (index: Option<int>)
    ensures index.Some? ==> count > 0 && -(count as int) < index.value < count
  {
    var numeric := AddressNumber(address);
    if numeric.None? || count == 0 then None
    else Some(JsRemainder(numeric.value, count))
  }

  /** `dataMock[mockIndex]`: `undefined` (`None`) for `NaN` or a negative index. */
  function ImageMockFromAddress<T>(address: string, mocks: seq<T>): (image: Option<T>)
    ensures image.Some? <==> MockIndex(address, |mocks|).Some? && MockIndex(address, |mocks|).value >= 0
    ensures image.Some? ==> image.value == mocks[MockIndex(address, |mocks|).value]
  {
    var index := MockIndex(address, |mocks|);
    if index.Some? && 0 <= index.value then Some(mocks[index.value]) else None
  }

  /** Two addresses spelled with different letter case get the same index. */
  lemma MockIndexIgnoresCase(a: string, b: string, count: nat)
    requires Lower(a) == Lower(b)
    ensures MockIndex(a, count) == MockIndex(b, count)
  {
    AddressNumberIgnoresCase(a, b);
  }

  lemma AddressNumberIgnoresCase(a: string, b: string)
    requires Lower(a) == Lower(b)
    ensures AddressNumber(a) == AddressNumber(b)
  {
  }

  /** Two addresses spelled with different letter case get the same image. */
  lemma ImageIgnoresCase<T>(a: string, b: string, mocks: seq<T>)
    requires Lower(a) == Lower(b)
    ensures ImageMockFromAddress(a, mocks) == ImageMockFromAddress(b, mocks)
  {
    MockIndexIgnoresCase(a, b, |mocks|);
  }

  /** In particular, the checksummed and the lower-case spelling of an address agree. */
  lemma ImageOfLowercaseAddress<T>(a: string, mocks: seq<T>)
    ensures ImageMockFromAddress(a, mocks) == ImageMockFromAddress(Lower(a), mocks)
  {
    LowerIdempotent(a);
    ImageIgnoresCase(a, Lower(a), mocks);
  }

  /** A well-formed address: "0x" followed by forty hexadecimal digits, of any case. */
  predicate IsAddress(a: string) {
    |a| == 42 && a[..2] == "0x" && AllHexDigits(a[2..])
  }

  lemma LowerKeepsHexDigits(s: string)
    requires AllHexDigits(s)
    ensures AllHexDigits(Lower(s))
  {
    forall i | 0 <= i < |s|
      ensures IsHexDigit(Lower(s)[i])
    {
      assert IsHexDigit(s[i]);
    }
  }

  lemma ReplacePrefix(rest: string)
    ensures ReplaceFirst("0x" + rest, "0x", "") == rest
  {
    assert ("0x" + rest)[..2] == "0x";
    assert ("0x" + rest)[2..] == rest;
  }

  /** Dropping "0x" from a lower-cased well-formed address leaves its forty digits, lower-cased. */
  lemma DigitsOfAddress(a: string)
    requires IsAddress(a)
    ensures ReplaceFirst(Lower(a), "0x", "") == Lower(a[2..])
  {
    assert a == "0x" + a[2..];
    LowerAppend("0x", a[2..]);
    assert Lower("0x") == "0x";
    ReplacePrefix(Lower(a[2..]));
  }

  /** The last eight of the forty digits, lower-cased. */
  lemma LastEightDigits(a: string)
    requires IsAddress(a)
    ensures SliceLast(Lower(a[2..]), 8) == Lower(a[34..])
    ensures |Lower(a[34..])| == 8 && AllHexDigits(Lower(a[34..]))
  {
    var digits := a[2..];
    assert digits == digits[..32] + a[34..];
    LowerAppend(digits[..32], a[34..]);
    LowerKeepsHexDigits(a[34..]);
  }

  /** A well-formed address reads as the number its last eight hexadecimal digits denote. */
  lemma AddressNumberOfWellFormed(a: string)
    requires IsAddress(a)
    ensures AllHexDigits(Lower(a[34..]))
    ensures AddressNumber(a) == Some(HexValue(Lower(a[34..])))
  {
    DigitsOfAddress(a);
    LastEightDigits(a);
    ParseIntHexOfDigits(Lower(a[34..]));
  }

  /** For a well-formed address and a non-empty image list, the image is the one at the
      value of the address's last eight hexadecimal digits modulo the list's length. */
  lemma WellFormedAddressImage<T>(a: string, mocks: seq<T>)
    requires IsAddress(a) && |mocks| > 0
    ensures AllHexDigits(Lower(a[34..]))
    ensures MockIndex(a, |mocks|) == Some(HexValue(Lower(a[34..])) % |mocks|)
    ensures ImageMockFromAddress(a, mocks) == Some(mocks[HexValue(Lower(a[34..])) % |mocks|])
  {
    AddressNumberOfWellFormed(a);
  }
}
