/**
 * The card of a catalogue project: the type and status badges looked up in constant
 * tables keyed by the project's status and type names, and the whole days left until
 * the deadline with its "Cerrado" / "N días" caption.
 */
module MockCard {
  import opened Wrappers
  import opened JsStrings

  datatype Status = Active | Funded | Construction | Completed | Payout
  datatype Kind = Residential | Commercial | Mixed

  /** The string a catalogue record holds in its `status` field. */
  function StatusKey(s: Status): string {
    match s
    case Active => "active"
    case Funded => "funded"
    case Construction => "construction"
    case Completed => "completed"
    case Payout => "payout"
  }

  /** The string a catalogue record holds in its `type` field. */
  function KindKey(k: Kind): string {
    match k
    case Residential => "residential"
    case Commercial => "commercial"
    case Mixed => "mixed"
  }

  const StatusLabels: map<string, string> := map[
    "active" := "Activo",
    "funded" := "Financiado",
    "construction" := "En Construcción",
    "completed" := "Completado",
    "payout" := "Pagando"]

  const TypeLabels: map<string, string> := map[
    "residential" := "Residencial",
    "commercial" := "Comercial",
    "mixed" := "Mixto"]

  const StatusColors: map<string, string> := map[
    "active" := "bg-green-500/10 text-green-500 border-green-500/20",
    "funded" := "bg-blue-500/10 text-blue-500 border-blue-500/20",
    "construction" := "bg-orange-500/10 text-orange-500 border-orange-500/20",
    "completed" := "bg-purple-500/10 text-purple-500 border-purple-500/20",
    "payout" := "bg-yellow-500/10 text-yellow-500 border-yellow-500/20"]

  /** The three tables have an entry for every status and every type: no lookup of the
      card yields `undefined`. */
  lemma LookupsAreTotal(s: Status, k: Kind)
    ensures StatusKey(s) in StatusLabels && StatusKey(s) in StatusColors
    ensures KindKey(k) in TypeLabels
    ensures StatusLabels[StatusKey(s)] != "" && StatusColors[StatusKey(s)] != ""
    ensures TypeLabels[KindKey(k)] != ""
  {
  }

  /** `statusLabels[project.status]`: a non-empty caption that names the status. */
  function StatusLabel(s: Status): (caption: string)
    ensures caption != "" && StatusOfLabel(caption) == Some(s)
  {
    LookupsAreTotal(s, Residential);
    StatusLabels[StatusKey(s)]
  }

  /** `typeLabels[project.type]`: a non-empty caption that names the type. */
  function TypeLabel(k: Kind): (caption: string)
    ensures caption != "" && KindOfLabel(caption) == Some(k)
  {
    LookupsAreTotal(Active, k);
    TypeLabels[KindKey(k)]
  }

  /** `statusColors[project.status]`: non-empty classes that identify the status. */
  function StatusColor(s: Status): (color: string)
    ensures color != "" && StatusOfColor(color) == Some(s)
  {
    LookupsAreTotal(s, Residential);
    StatusColors[StatusKey(s)]
  }

  /** The status a badge caption names. */
  function StatusOfLabel(caption: string): Option<Status> {
    if caption == "Activo" then Some(Active)
    else if caption == "Financiado" then Some(Funded)
    else if caption == "En Construcción" then Some(Construction)
    else if caption == "Completado" then Some(Completed)
    else if caption == "Pagando" then Some(Payout)
    else None
  }

  /** The type a badge caption names. */
  function KindOfLabel(caption: string): Option<Kind> {
    if caption == "Residencial" then Some(Residential)
    else if caption == "Comercial" then Some(Commercial)
    else if caption == "Mixto" then Some(Mixed)
    else None
  }

  /** The status whose colour a badge carries, read from its first class. */
  function StatusOfColor(color: string): Option<Status> {
    if color == StatusColors["active"] then Some(Active)
    else if color == StatusColors["funded"] then Some(Funded)
    else if color == StatusColors["construction"] then Some(Construction)
    else if color == StatusColors["completed"] then Some(Completed)
    else if color == StatusColors["payout"] then Some(Payout)
    else None
  }

  /** Every status and every type is recovered from its badge, so the badges tell the
      five statuses, and the three types, apart. */
  lemma LabelsRoundTrip(s: Status, k: Kind)
    ensures StatusOfLabel(StatusLabel(s)) == Some(s)
    ensures KindOfLabel(TypeLabel(k)) == Some(k)
  {
  }

  lemma StatusLabelInjective(s: Status, t: Status)
    requires StatusLabel(s) == StatusLabel(t)
    ensures s == t
  {
    LabelsRoundTrip(s, Residential);
    LabelsRoundTrip(t, Residential);
  }

  // ---------------------------------------------------------------------------
  // Days left
  // ---------------------------------------------------------------------------

  const MsPerDay := 86_400_000

  /** `Math.ceil(x / MsPerDay)` for an integral number of milliseconds `x`: the least
      integer whose multiple of a day reaches `x`. */
  function CeilDays(x: int): (c: int)
    ensures c * MsPerDay >= x
    ensures (c - 1) * MsPerDay < x
  {
    // With a positive divisor Dafny's `/` floors; the ceiling is the negated floor of `-x`.
    var q := (-x) / MsPerDay;
    assert q * MsPerDay <= -x < q * MsPerDay + MsPerDay;
    -q
  }

  /** `calculateDaysLeft`: `Math.max(0, ...)` of the ceiling, so whole days from `nowMs` to
      `deadline`, rounded up and never below zero. */
  function CalculateDaysLeft(deadline: int, nowMs: int): (days: nat)
    ensures days * MsPerDay >= deadline - nowMs
    ensures days > 0 ==> (days - 1) * MsPerDay < deadline - nowMs
  {
    var c := CeilDays(deadline - nowMs);
    if c > 0 then c else 0
  }

  /** Nothing smaller than the result also covers the remaining time. */
  lemma DaysLeftIsLeast(deadline: int, nowMs: int, d: nat)
    requires d * MsPerDay >= deadline - nowMs
    ensures CalculateDaysLeft(deadline, nowMs) <= d
  {
  }

  /** A deadline at or before now leaves zero days. */
  lemma DeadlinePassedGivesZero(deadline: int, nowMs: int)
    requires deadline <= nowMs
    ensures CalculateDaysLeft(deadline, nowMs) == 0
  {
    DaysLeftIsLeast(deadline, nowMs, 0);
  }

  /** One millisecond left already counts as a whole day. */
  lemma OneMillisecondIsADay(nowMs: int)
    ensures CalculateDaysLeft(nowMs + 1, nowMs) == 1
  {
    DaysLeftIsLeast(nowMs + 1, nowMs, 1);
  }

  /** An exact number of days is not rounded up. */
  lemma WholeDays(nowMs: int, k: nat)
    ensures CalculateDaysLeft(nowMs + k * MsPerDay, nowMs) == k
  {
    DaysLeftIsLeast(nowMs + k * MsPerDay, nowMs, k);
  }

  /** The time caption: `"<days> días"` while days remain, `"Cerrado"` once none do. */
  function DaysLabel(daysLeft: nat): (caption: string)
    ensures caption == "Cerrado" <==> daysLeft == 0
    ensures daysLeft > 0 ==> caption == NumberToString(daysLeft) + " días"
  {
    if daysLeft > 0 then
      var digits := NumberToString(daysLeft);
      NumberToStringDenotes(daysLeft);
      assert (digits + " días")[0] == digits[0] != 'C';
      digits + " días"
    else
      "Cerrado"
  }

  lemma SameSuffixSamePrefix(a: string, b: string, suffix: string)
    requires a + suffix == b + suffix
    ensures a == b
  {
    assert |a| == |b|;
    assert a == (a + suffix)[..|a|];
    assert b == (b + suffix)[..|b|];
  }

  /** Different day counts are never captioned alike. */
  lemma DaysLabelInjective(d: nat, e: nat)
    requires DaysLabel(d) == DaysLabel(e)
    ensures d == e
  {
    if d > 0 && e > 0 {
      SameSuffixSamePrefix(NumberToString(d), NumberToString(e), " días");
      NumberToStringInjective(d, e);
    }
  }

  // ---------------------------------------------------------------------------
  // The card
  // ---------------------------------------------------------------------------

  /** The catalogue fields the card reads (images, location, amounts and the ROI figure
      are displayed as they are). */
  datatype CatalogProject = CatalogProject(id: string, name: string, kind: Kind, status: Status, deadline: int)

  datatype Card = Card(href: string, title: string, typeBadge: string, statusBadge: string,
                       statusColor: string, timeText: string)

  function MockCardView(p: CatalogProject, nowMs: int): (card: Card)
    ensures card.timeText == DaysLabel(CalculateDaysLeft(p.deadline, nowMs))
    ensures StatusOfLabel(card.statusBadge) == Some(p.status)
    ensures KindOfLabel(card.typeBadge) == Some(p.kind)
  {
    LabelsRoundTrip(p.status, p.kind);
    Card(
      href := "/proyectos/" + p.id,
      title := p.name,
      typeBadge := TypeLabel(p.kind),
      statusBadge := StatusLabel(p.status),
      statusColor := StatusColor(p.status),
      timeText := DaysLabel(CalculateDaysLeft(p.deadline, nowMs)))
  }

  /** The card reads "Cerrado" exactly when the deadline is not in the future. */
  lemma ClosedExactlyAfterDeadline(p: CatalogProject, nowMs: int)
    ensures MockCardView(p, nowMs).timeText == "Cerrado" <==> p.deadline <= nowMs
  {
    if p.deadline <= nowMs {
      DeadlinePassedGivesZero(p.deadline, nowMs);
    }
  }
}
