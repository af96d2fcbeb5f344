/**
 * The card of one on-chain project in the project list: the phase badge (label and
 * colour, with a fallback for unknown phases), the three amounts scaled by the
 * token's 18 decimals, the return percentage and the time left to buy.
 */
module PhaseCard {
  import opened Wrappers
  import opened JsStrings
  import GetTime
  import PoolQuery

  /** Phase 0 buying, 1 softcap reached, 2 waiting for repayment, 3 claim ready, 4 refund. */
  const PhaseLabels: map<int, string> := map[
    0 := "Activo",
    1 := "Financiado",
    2 := "En Construcción",
    3 := "Completado",
    4 := "Reembolso"]

  const StatusColors: map<int, string> := map[
    0 := "bg-green-500/10 text-green-500 border-green-500/20",
    1 := "bg-blue-500/10 text-blue-500 border-blue-500/20",
    2 := "bg-orange-500/10 text-orange-500 border-orange-500/20",
    3 := "bg-purple-500/10 text-purple-500 border-purple-500/20",
    4 := "bg-yellow-500/10 text-yellow-500 border-yellow-500/20"]

  const FallbackLabel := "Activo"

  predicate IsKnownPhase(phase: int) {
    0 <= phase <= 4
  }

  /** `getPhaseLabel`: `labels[phase] || "Activo"`, so a missing key or an empty label
      falls back. Every phase 0..4 has its own non-empty label, anything else reads "Activo". */
  function PhaseLabel(phase: int): (caption: string)
    ensures IsKnownPhase(phase) ==> caption == PhaseLabels[phase]
    ensures !IsKnownPhase(phase) ==> caption == FallbackLabel
    ensures caption != ""
  {
    if phase in PhaseLabels && PhaseLabels[phase] != "" then PhaseLabels[phase] else FallbackLabel
  }

  /** `statusColors[phase] || statusColors[0]` */
  function BadgeColor(phase: int): (color: string)
    ensures IsKnownPhase(phase) ==> color == StatusColors[phase]
    ensures !IsKnownPhase(phase) ==> color == StatusColors[0]
  {
    if phase in StatusColors && StatusColors[phase] != "" then StatusColors[phase] else StatusColors[0]
  }

  /** The phase a badge label names, the inverse of `PhaseLabel` on the known phases. */
  function PhaseOfLabel(caption: string): Option<int> {
    if caption == "Activo" then Some(0)
    else if caption == "Financiado" then Some(1)
    else if caption == "En Construcción" then Some(2)
    else if caption == "Completado" then Some(3)
    else if caption == "Reembolso" then Some(4)
    else None
  }

  /** Each known phase is recovered from its label. */
  lemma PhaseLabelRoundTrip(phase: int)
    requires IsKnownPhase(phase)
    ensures PhaseOfLabel(PhaseLabel(phase)) == Some(phase)
  {
  }

  /** The five labels are pairwise distinct. */
  lemma PhaseLabelsDistinct(p: int, q: int)
    requires IsKnownPhase(p) && IsKnownPhase(q) && p != q
    ensures PhaseLabel(p) != PhaseLabel(q)
  {
    PhaseLabelRoundTrip(p);
    PhaseLabelRoundTrip(q);
  }

  /** An unknown phase gets both the label and the colour of phase 0. */
  lemma UnknownPhaseLooksLikeBuying(phase: int)
    requires !IsKnownPhase(phase)
    ensures PhaseLabel(phase) == PhaseLabel(0) && BadgeColor(phase) == BadgeColor(0)
  {
  }

  // ---------------------------------------------------------------------------
  // The card
  // ---------------------------------------------------------------------------

  /** The stablecoin's decimals used for every amount on the card. */
  const TokenDecimals := 18

  /** `formatUnits(value, decimals)`, kept symbolic: the decimal text is not modelled,
      only the number it stands for. */
  datatype Units = Units(value: int, decimals: nat)

  function Pow10(n: nat): (p: nat)
    ensures p >= 1
  {
    if n == 0 then 1 else 10 * Pow10(n - 1)
  }

  /** The number `formatUnits` writes out: value / 10^decimals. */
  function Amount(u: Units): real {
    u.value as real / Pow10(u.decimals) as real
  }

  datatype Card = Card(
    href: string,
    title: string,
    badgeColor: string,
    phaseLabel: string,
    softCap: Units,
    totalSold: Units,
    goal: Units,
    returnText: string,
    timeLeft: string)

  /** What `ProjectCard` derives from a listed project at the instant `nowMs`. */
  function ProjectCardView(p: PoolQuery.ProjectListing, nowMs: int): (card: Card)
    ensures card.softCap == Units(p.softCapAmount, TokenDecimals)
    ensures card.totalSold == Units(p.totalSold, TokenDecimals)
    ensures card.goal == Units(p.totalFractions, TokenDecimals)
    ensures card.timeLeft == GetTime.TimeLabel(p.buyingPeriodEnd, nowMs)
  {
    Card(
      href := "/proyectos/" + p.contractAddress,
      title := p.name,
      badgeColor := BadgeColor(p.currentPhase),
      phaseLabel := PhaseLabel(p.currentPhase),
      softCap := Units(p.softCapAmount, TokenDecimals),
      totalSold := Units(p.totalSold, TokenDecimals),
      goal := Units(p.totalFractions, TokenDecimals),
      returnText := NumberToString(p.possibleReturn) + "%",
      timeLeft := GetTime.TimeLabel(p.buyingPeriodEnd, nowMs))
  }

  /** Dividing by one positive scale keeps the order of two amounts. */
  lemma SameScaleKeepsOrder(a: int, b: int, decimals: nat)
    ensures Amount(Units(a, decimals)) <= Amount(Units(b, decimals)) <==> a <= b
    ensures Amount(Units(a, decimals)) == Amount(Units(b, decimals)) <==> a == b
  {
    var s := Pow10(decimals) as real;
    assert Amount(Units(a, decimals)) * s == a as real;
    assert Amount(Units(b, decimals)) * s == b as real;
  }

  /** Because sold, softcap and goal share one scale, the card's amounts compare exactly as
      the raw on-chain amounts do. */
  lemma CardAmountsCompareLikeRaw(p: PoolQuery.ProjectListing, nowMs: int)
    ensures var card := ProjectCardView(p, nowMs);
      && (Amount(card.totalSold) <= Amount(card.goal) <==> p.totalSold <= p.totalFractions)
      && (Amount(card.totalSold) <= Amount(card.softCap) <==> p.totalSold <= p.softCapAmount)
      && (Amount(card.softCap) <= Amount(card.goal) <==> p.softCapAmount <= p.totalFractions)
  {
    SameScaleKeepsOrder(p.totalSold, p.totalFractions, TokenDecimals);
    SameScaleKeepsOrder(p.totalSold, p.softCapAmount, TokenDecimals);
    SameScaleKeepsOrder(p.softCapAmount, p.totalFractions, TokenDecimals);
  }

  /** A project in an unknown phase is drawn exactly as if it were in phase 0. */
  lemma UnknownPhaseCardLikeBuying(p: PoolQuery.ProjectListing, nowMs: int)
    requires !IsKnownPhase(p.currentPhase)
    ensures ProjectCardView(p, nowMs) == ProjectCardView(p.(currentPhase := 0), nowMs)
  {
    UnknownPhaseLooksLikeBuying(p.currentPhase);
  }
}
