/** The slot schedule: how long a frame is on the air, when each member speaks,
    and why no two of them collide. Protocol milliseconds, at scale one. */
module Schedule {
  import opened Basics
  import opened Contracts
  import CompactFrame

  // ---- time on air (Semtech AN1200.13, 125 kHz, CR 4/5, 8 preamble symbols) ----

  function CeilDiv(a: int, b: int): int
    requires b > 0
  {
    -((-a) / b)
  }

  function Clamp(x: int, low: int, high: int): int {
    if x < low then low else if x > high then high else x
  }

  /** Payload symbols, header included. */
  function Symbols(sf: nat, payload: nat): (r: nat)
    ensures r >= 8
  {
    var s := Clamp(sf, 7, 12);
    var lowDataRate := if sf >= 11 then 1 else 0;
    var numerator := 8 * Min(payload, 255) - 4 * s + 28 + 16;
    8 + Max(CeilDiv(numerator, 4 * (s - 2 * lowDataRate)), 0) * 5
  }

  /** Five hundred times the airtime: a symbol is `2^sf / 125` ms, and the
      preamble twelve and a quarter of them. */
  function Scaled(sf: nat, payload: nat): nat {
    (49 + 4 * Symbols(sf, payload)) * PowerOfTwo(Clamp(sf, 7, 12))
  }

  /** Rounded to the nearest millisecond. */
  function AirtimeAt(sf: nat, payload: nat): nat {
    (Scaled(sf, payload) + 250) / 500
  }

  function AirtimeMs(payload: nat): nat {
    AirtimeAt(10, payload)
  }

  /** The spreading factors the radio has; any other setting is taken for the nearest. */
  lemma SettingsAreClamped(sf: nat, payload: nat)
    ensures sf < 7 ==> AirtimeAt(sf, payload) == AirtimeAt(7, payload)
    ensures sf > 12 ==> AirtimeAt(sf, payload) == AirtimeAt(12, payload)
    ensures payload > 255 ==> AirtimeAt(sf, payload) == AirtimeAt(sf, 255)
  {
  }

  predicate IsNearest(ms: nat, exact: real) {
    exact - 0.5 <= ms as real <= exact + 0.5
  }

  /** Airtime is the nearest millisecond to twelve and a quarter preamble symbols and
      the payload's, each of 2^sf chirps at 125 a millisecond. */
  lemma AirtimeIsNearest(sf: nat, payload: nat, symbols: nat, chirps: nat)
    requires 7 <= sf <= 12 && symbols == Symbols(sf, payload) && chirps == PowerOfTwo(sf)
    ensures IsNearest(AirtimeAt(sf, payload), (12.25 + symbols as real) * chirps as real / 125.0)
  {
    Rounds(symbols, chirps);
    ScaledIs(sf, payload);
  }

  lemma ScaledIs(sf: nat, payload: nat)
    requires 7 <= sf <= 12
    ensures AirtimeAt(sf, payload) == ((49 + 4 * Symbols(sf, payload)) * PowerOfTwo(sf) + 250) / 500
  {
    assert Clamp(sf, 7, 12) == sf;
  }

  lemma Rounds(n: nat, p: nat)
    ensures IsNearest(((49 + 4 * n) * p + 250) / 500, (12.25 + n as real) * p as real / 125.0)
  {
    Quartered(n, p);
    Nearest((49 + 4 * n) * p);
  }

  lemma Nearest(scaled: nat)
    ensures var ms := (scaled + 250) / 500;
            scaled as real / 500.0 - 0.5 <= ms as real <= scaled as real / 500.0 + 0.5
  {
    var ms := (scaled + 250) / 500;
    assert 500 * ms - 250 <= scaled <= 500 * ms + 250;
  }

  lemma Quartered(n: nat, p: nat)
    ensures ((49 + 4 * n) * p) as real / 500.0 == (12.25 + n as real) * p as real / 125.0
  {
    assert (49 + 4 * n) as real == 4.0 * (12.25 + n as real);
    assert ((49 + 4 * n) * p) as real == (49 + 4 * n) as real * p as real;
  }

  lemma CeilDivMonotone(a: int, b: int, d: int)
    requires a <= b && d > 0
    ensures CeilDiv(a, d) <= CeilDiv(b, d)
  {
    FloorMonotone(-b, -a, d);
  }

  lemma FloorMonotone(a: int, b: int, d: int)
    requires a <= b && d > 0
    ensures a / d <= b / d
  {
    var p, q := a / d, b / d;
    assert a == d * p + a % d && b == d * q + b % d;
    assert d * (q + 1) == d * q + d;
    if p > q {
      Scale(d, q + 1, p);
    }
  }

  lemma ProductMonotone(a: nat, b: nat, c: nat)
    requires a <= b
    ensures a * c <= b * c
  {
  }

  lemma CeilDivIs(a: int, d: nat)
    requires d > 0
    ensures (CeilDiv(a, d) - 1) * d < a <= CeilDiv(a, d) * d
  {
    var q := (-a) / d;
    assert -a == d * q + (-a) % d;
    assert (-q) * d == -(d * q) && (-q - 1) * d == -(d * q) - d;
  }

  /** What a block of five symbols carries: four nibbles of a bit per chirp bit, two
      chirp bits fewer at the two slowest rates. */
  function BlockBits(sf: nat): nat
    requires 7 <= sf <= 12
  {
    4 * if sf <= 10 then sf else sf - 2
  }

  /** After the first eight symbols the payload takes whole blocks of five, and just
      as many as carry its bits, header and checksum: one block less would not. */
  lemma SymbolsExactly(sf: nat, payload: nat)
    requires 7 <= sf <= 12 && payload <= 255
    ensures exists blocks: nat ::
      Symbols(sf, payload) == 8 + 5 * blocks
      && 8 * payload + 44 <= blocks * BlockBits(sf) + 4 * sf
      && (blocks > 0 ==> (blocks - 1) * BlockBits(sf) + 4 * sf < 8 * payload + 44)
  {
    var numerator := 8 * payload - 4 * sf + 28 + 16;
    var blocks := CeilDiv(numerator, BlockBits(sf));
    CeilDivIs(numerator, BlockBits(sf));
    assert blocks >= 0 by {
      if blocks <= -1 {
        Scale(BlockBits(sf), blocks, -1);
      }
    }
    assert Symbols(sf, payload) == 8 + 5 * blocks;
  }

  lemma SymbolsMonotone(sf: nat, a: nat, b: nat)
    requires a <= b
    ensures Symbols(sf, a) <= Symbols(sf, b)
  {
    var s := Clamp(sf, 7, 12);
    var d := 4 * (s - 2 * (if sf >= 11 then 1 else 0));
    CeilDivMonotone(8 * Min(a, 255) - 4 * s + 28 + 16, 8 * Min(b, 255) - 4 * s + 28 + 16, d);
  }

  /** A longer frame is never shorter on the air. */
  lemma AirtimeMonotone(sf: nat, a: nat, b: nat)
    requires a <= b
    ensures AirtimeAt(sf, a) <= AirtimeAt(sf, b)
  {
    SymbolsMonotone(sf, a, b);
    ProductMonotone(49 + 4 * Symbols(sf, a), 49 + 4 * Symbols(sf, b), PowerOfTwo(Clamp(sf, 7, 12)));
  }

  lemma {:induction false} FourDivides(n: nat)
    requires n >= 2
    ensures PowerOfTwo(n) % 4 == 0
  {
    assert PowerOfTwo(n) == 2 * PowerOfTwo(n - 1) == 4 * PowerOfTwo(n - 2);
  }

  /** The exact airtime never lies half-way between two milliseconds. */
  lemma RoundingNeverTies(sf: nat, payload: nat)
    ensures Scaled(sf, payload) % 500 != 250
  {
    var s := Clamp(sf, 7, 12);
    FourDivides(s);
    var k := PowerOfTwo(s) / 4;
    var n := 49 + 4 * Symbols(sf, payload);
    assert n * PowerOfTwo(s) == 4 * (n * k);
  }

  const WIDEST_MS: nat := AirtimeMs(CompactFrame.MAX_FRAME_BYTES)

  lemma WidestIs()
    ensures WIDEST_MS == 1_436
  {
    assert PowerOfTwo(10) == 1_024 by {
      assert PowerOfTwo(5) == 32;
    }
    assert Symbols(10, 152) == 163;
  }

  // ---- the schedule ----

  const REPAIR_ROUNDS: nat := 3

  /** How a fleet is laid out: its size, the guard between slots and how often a
      binding vote may be tried. */
  datatype Layout = Layout(fleet: nat, guardMs: nat, attempts: nat)
  {
    function Slot(): nat {
      WIDEST_MS + guardMs
    }

    function WindowSeconds(): nat {
      DivCeil(Slot() * fleet, 1_000) + 2
    }

    function Window(): nat {
      WindowSeconds() * 1_000
    }

    function Tries(): nat {
      Max(attempts, 1)
    }

    function Finish(): nat {
      BINDING_STAGE_OPENS_SECONDS + 1 + WindowSeconds() * (Tries() + 2 * REPAIR_ROUNDS) + 5
    }

    /** The start-up check: every stage and every attempt ends in time. */
    predicate Fits() {
      Finish() <= ENDORSEMENT_TARGET_SECONDS
    }
  }

  /** When each stage opens, after the anchor. */
  function StageStart(l: Layout, stage: nat): int
    requires stage < 3
  {
    if stage == 0 then 3_000
    else if stage == 1 then 3_000 + l.Window()
    else (BINDING_STAGE_OPENS_SECONDS + 1) * 1_000
  }

  /** When a member's attempt is due. */
  function Due(l: Layout, anchor: int, member: nat, stage: nat, attempt: nat): int
    requires stage < 3
  {
    anchor + StageStart(l, stage) + l.Slot() * member + attempt * l.Window()
  }

  function RepairStart(l: Layout, anchor: int): int {
    anchor + StageStart(l, 2) + l.Window() * l.Tries()
  }

  /** A member's repair request, and the resend another member answers it with. */
  function RequestDue(l: Layout, anchor: int, member: nat, round: nat): int {
    RepairStart(l, anchor) + l.Window() * (2 * round) + l.Slot() * member
  }

  function ResendDue(l: Layout, anchor: int, member: nat, round: nat): int {
    RepairStart(l, anchor) + l.Window() * (2 * round + 1) + l.Slot() * member
  }

  /** What a member may put on the air once voting has begun. */
  datatype Turn = Attempt(n: nat) | Request(round: nat) | Resend(round: nat)

  function TurnDue(l: Layout, anchor: int, member: nat, turn: Turn): int {
    match turn
    case Attempt(n) => Due(l, anchor, member, 2, n)
    case Request(round) => RequestDue(l, anchor, member, round)
    case Resend(round) => ResendDue(l, anchor, member, round)
  }

  /** Which window after the first binding window a turn falls in. */
  function WindowOf(l: Layout, turn: Turn): nat {
    match turn
    case Attempt(n) => n
    case Request(round) => l.Tries() + 2 * round
    case Resend(round) => l.Tries() + 2 * round + 1
  }

  /** Every turn is the member's own slot of some window. */
  lemma TurnIsASlot(l: Layout, anchor: int, member: nat, turn: Turn)
    ensures TurnDue(l, anchor, member, turn)
         == anchor + StageStart(l, 2) + l.Slot() * member + WindowOf(l, turn) * l.Window()
  {
    var w := l.Window();
    match turn
    case Attempt(n) =>
    case Request(round) =>
      assert w * l.Tries() + w * (2 * round) == (l.Tries() + 2 * round) * w;
    case Resend(round) =>
      assert w * l.Tries() + w * (2 * round + 1) == (l.Tries() + 2 * round + 1) * w;
  }

  lemma WindowHoldsTheSlots(l: Layout)
    ensures l.Slot() * l.fleet + 2_000 <= l.Window()
  {
    CeilIsUp(l.Slot() * l.fleet);
  }

  /** The window is the least number of whole seconds that leaves two after the last
      slot; and a schedule that allows no attempt has one all the same. */
  lemma WindowIsLeast(l: Layout, slots: nat)
    requires slots == l.Slot() * l.fleet
    ensures l.Window() - 1_000 < slots + 2_000 <= l.Window() == 1_000 * l.WindowSeconds()
    ensures l.Tries() == if l.attempts == 0 then 1 else l.attempts
  {
    CeilIsUp(slots);
    assert l.WindowSeconds() == DivCeil(slots, 1_000) + 2;
  }

  lemma CeilIsUp(n: nat)
    ensures n <= DivCeil(n, 1_000) * 1_000 < n + 1_000
  {
  }

  lemma SlotGap(slot: nat, i: nat, j: nat)
    requires i < j
    ensures slot * i + slot <= slot * j
  {
    assert slot * j == slot * i + slot * (j - i);
    ProductMonotone(1, j - i, slot);
  }

  lemma Multiples(q: int, w: nat)
    ensures q >= 0 ==> q * w >= 0
    ensures q <= -1 ==> q * w + w <= 0
    ensures q >= 1 ==> q * w >= w
  {
  }

  predicate Near(x: int, e: nat) {
    x <= e && 0 <= x + e
  }

  /** The two anchors name the same slots: whole windows apart, to within `e`. */
  ghost predicate AgreeModulo(a: int, b: int, window: int, e: nat) {
    exists z: int :: Near(b - a - z * window, e)
  }

  /** On the air from `start` for the airtime of `bytes`. */
  datatype Airing = Airing(start: int, bytes: nat)
  {
    function End(): int {
      start + AirtimeMs(bytes)
    }
  }

  predicate Overlap(a: Airing, b: Airing) {
    a.start < b.End() && b.start < a.End()
  }

  /** A frame that fits its slot, sent at most `d` after it was due. */
  predicate OnTime(a: Airing, due: int, d: nat) {
    a.bytes <= CompactFrame.MAX_FRAME_BYTES && due <= a.start <= due + d
  }

  lemma FitsItsSlot(a: Airing)
    requires a.bytes <= CompactFrame.MAX_FRAME_BYTES
    ensures a.End() <= a.start + WIDEST_MS
  {
    AirtimeMonotone(10, a.bytes, CompactFrame.MAX_FRAME_BYTES);
  }

  /** Two slots `gap` apart on one timetable, and whole windows apart besides. */
  lemma SlotsApart(slot: nat, guard: nat, w: nat, gap: int, shift: int, p: int, q: int, x: int, y: int,
                   late: nat, e: nat)
    requires slot == WIDEST_MS + guard && slot <= gap && gap + slot <= w
    requires shift >= 0 || shift + w <= 0
    requires Near(q - p - gap - shift, e) && late + e <= guard
    requires p <= x <= p + late && q <= y <= q + late
    ensures x + WIDEST_MS <= y || y + WIDEST_MS <= x
  {
  }

  lemma GapsFit(l: Layout, i: nat, j: nat)
    requires i < j < l.fleet
    ensures l.Slot() <= l.Slot() * j - l.Slot() * i
    ensures l.Slot() * j - l.Slot() * i + l.Slot() <= l.Window()
  {
    WindowHoldsTheSlots(l);
    SlotGap(l.Slot(), i, j);
    SlotGap(l.Slot(), j, l.fleet);
    NotNegative(l.Slot(), i);
    Between(l.Slot(), l.Slot() * i, l.Slot() * j, l.Slot() * l.fleet, l.Window());
  }

  lemma Between(slot: nat, a: int, b: int, c: int, w: nat)
    requires 0 <= a && a + slot <= b && b + slot <= c && c + 2_000 <= w
    ensures slot <= b - a && b - a + slot <= w
  {
  }

  lemma Ordered(l: Layout, i: nat, j: nat, p: int, q: int, k: int, x: Airing, y: Airing, d: nat, e: nat)
    requires i < j < l.fleet && d + e <= l.guardMs
    requires Near(q - p - (l.Slot() * j - l.Slot() * i) - k * l.Window(), e)
    requires OnTime(x, p, d) && OnTime(y, q, d)
    ensures !Overlap(x, y)
  {
    FitsItsSlot(x);
    FitsItsSlot(y);
    GapsFit(l, i, j);
    Multiples(k, l.Window());
    SlotsApart(l.Slot(), l.guardMs, l.Window(), l.Slot() * j - l.Slot() * i, k * l.Window(),
               p, q, x.start, y.start, d, e);
  }

  /** From the first binding slot on -- votes, retries, repair requests and
      resends -- no two members' frames are ever on the air together, if their
      anchors agree to within `e` modulo the window, nobody starts more than `d`
      late, and the guard covers both. */
  lemma NoCollisions(l: Layout, i: nat, j: nat, a: int, b: int, t: Turn, u: Turn,
                     x: Airing, y: Airing, d: nat, e: nat)
    requires i < l.fleet && j < l.fleet && i != j && d + e <= l.guardMs
    requires AgreeModulo(a, b, l.Window(), e)
    requires OnTime(x, TurnDue(l, a, i, t), d) && OnTime(y, TurnDue(l, b, j, u), d)
    ensures !Overlap(x, y)
  {
    var w := l.Window();
    var z: int :| Near(b - a - z * w, e);
    TurnIsASlot(l, a, i, t);
    TurnIsASlot(l, b, j, u);
    Difference(WindowOf(l, u), WindowOf(l, t), z, w);
    if i < j {
      Ordered(l, i, j, TurnDue(l, a, i, t), TurnDue(l, b, j, u),
              WindowOf(l, u) - WindowOf(l, t) + z, x, y, d, e);
    } else {
      Ordered(l, j, i, TurnDue(l, b, j, u), TurnDue(l, a, i, t),
              WindowOf(l, t) - WindowOf(l, u) - z, y, x, d, e);
    }
  }

  lemma Difference(m: int, n: int, z: int, w: int)
    ensures m * w - n * w + z * w == (m - n + z) * w
    ensures n * w - m * w - z * w == (n - m - z) * w
  {
  }

  /** The guard is exactly what it takes: with more lateness and disagreement than
      it covers, neighbours can collide. */
  lemma GuardIsTight(l: Layout, d: nat, e: nat)
    requires l.fleet >= 2 && l.guardMs < d + e
    ensures exists a: int, b: int, x, y ::
      AgreeModulo(a, b, l.Window(), e) && Overlap(x, y)
      && OnTime(x, TurnDue(l, a, 0, Attempt(0)), d) && OnTime(y, TurnDue(l, b, 1, Attempt(0)), d)
  {
    // A whole slot of lateness and disagreement is enough.
    var apart := Min(e, l.Slot());
    var late := Min(d, l.Slot() - apart);
    var a, b := apart, 0;
    var x := Airing(TurnDue(l, a, 0, Attempt(0)) + late, CompactFrame.MAX_FRAME_BYTES);
    var y := Airing(TurnDue(l, b, 1, Attempt(0)), CompactFrame.MAX_FRAME_BYTES);
    WidestIs();
    assert Near(b - a - 0 * l.Window(), e);
    assert AgreeModulo(a, b, l.Window(), e);
    TurnIsASlot(l, a, 0, Attempt(0));
    TurnIsASlot(l, b, 1, Attempt(0));
    assert Overlap(x, y);
    assert OnTime(x, TurnDue(l, a, 0, Attempt(0)), d) && OnTime(y, TurnDue(l, b, 1, Attempt(0)), d);
  }

  // ---- the start-up check ----

  /** The check passes exactly if the window of the last resend a schedule allows is
      over five seconds before endorsement is expected. */
  lemma FitsExactly(l: Layout, anchor: int)
    ensures l.Fits()
       <==> ResendDue(l, anchor, 0, REPAIR_ROUNDS - 1) + l.Window() + 5_000
            <= anchor + ENDORSEMENT_TARGET_SECONDS * 1_000
  {
    var w, n := l.WindowSeconds(), l.Tries() + 2 * REPAIR_ROUNDS;
    TurnIsASlot(l, anchor, 0, Resend(REPAIR_ROUNDS - 1));
    Windows(n - 1, w);
    assert w * n == n * w;
  }

  lemma FitsMeansNarrow(l: Layout)
    requires l.Fits()
    ensures l.WindowSeconds() <= 33 && l.Window() <= 33_000
  {
    Scale(l.WindowSeconds(), 7, l.Tries() + 2 * REPAIR_ROUNDS);
  }

  /** With a schedule that passes the start-up check, an opinion is off the air
      before any member's binding stage opens, if their anchors agree to within
      `e` and nobody starts more than `d` late. */
  lemma OpinionsClearOfBinding(l: Layout, i: nat, j: nat, a: int, b: int, stage: nat, t: Turn,
                               x: Airing, d: nat, e: nat)
    requires l.Fits() && i < l.fleet && stage < 2 && Near(b - a, e)
    requires d + e <= l.guardMs && OnTime(x, Due(l, a, i, stage, 0), d)
    ensures x.End() < TurnDue(l, b, j, t)
  {
    FitsMeansNarrow(l);
    FitsItsSlot(x);
    WindowHoldsTheSlots(l);
    SlotGap(l.Slot(), i, l.fleet);
    TurnIsASlot(l, b, j, t);
    NotNegative(l.Slot(), j);
    NotNegative(WindowOf(l, t), l.Window());
  }

  lemma NotNegative(a: nat, b: nat)
    ensures a * b >= 0
  {
  }

  /** Nor do two members' opinions collide, in either stage or across them. */
  lemma OpinionsDoNotCollide(l: Layout, i: nat, j: nat, a: int, b: int, stage: nat, other: nat,
                             x: Airing, y: Airing, d: nat, e: nat)
    requires i < l.fleet && j < l.fleet && i != j && stage < 2 && other < 2
    requires d + e <= l.guardMs && AgreeModulo(a, b, l.Window(), e)
    requires OnTime(x, Due(l, a, i, stage, 0), d) && OnTime(y, Due(l, b, j, other, 0), d)
    ensures !Overlap(x, y)
  {
    var w := l.Window();
    var z: int :| Near(b - a - z * w, e);
    Difference(other, stage, z, w);
    OpinionIsASlot(l, a, i, stage);
    OpinionIsASlot(l, b, j, other);
    if i < j {
      Ordered(l, i, j, Due(l, a, i, stage, 0), Due(l, b, j, other, 0), other - stage + z, x, y, d, e);
    } else {
      Ordered(l, j, i, Due(l, b, j, other, 0), Due(l, a, i, stage, 0), stage - other - z, y, x, d, e);
    }
  }

  lemma OpinionIsASlot(l: Layout, anchor: int, member: nat, stage: nat)
    requires stage < 2
    ensures Due(l, anchor, member, stage, 0)
         == anchor + 3_000 + l.Slot() * member + stage * l.Window()
  {
  }

  /** Every attempt, request and resend the schedule allows is off the air before
      endorsement is expected. */
  lemma EverythingEndsInTime(l: Layout, anchor: int, i: nat, t: Turn, x: Airing, d: nat)
    requires l.Fits() && i < l.fleet && d <= l.guardMs
    requires t.Attempt? ==> t.n < l.Tries()
    requires t.Request? ==> t.round < REPAIR_ROUNDS
    requires t.Resend? ==> t.round < REPAIR_ROUNDS
    requires OnTime(x, TurnDue(l, anchor, i, t), d)
    ensures x.End() < anchor + ENDORSEMENT_TARGET_SECONDS * 1_000
  {
    TurnIsASlot(l, anchor, i, t);
    FitsItsSlot(x);
    WindowHoldsTheSlots(l);
    SlotGap(l.Slot(), i, l.fleet);
    LastWindow(l, WindowOf(l, t));
  }

  lemma LastWindow(l: Layout, n: nat)
    requires l.Fits() && n < l.Tries() + 2 * REPAIR_ROUNDS
    ensures StageStart(l, 2) + n * l.Window() + l.Window() + 5_000 <= ENDORSEMENT_TARGET_SECONDS * 1_000
  {
    var last, w := l.Tries() + 2 * REPAIR_ROUNDS, l.WindowSeconds();
    ProductMonotone(n + 1, last, w);
    Windows(n, w);
    assert w * last == last * w;
  }

  lemma Windows(n: nat, w: nat)
    ensures n * (w * 1_000) + w * 1_000 == 1_000 * ((n + 1) * w)
  {
  }

  // ---- telling a foreign anchor ----

  /** How far an implied anchor is from ours, around the window. */
  function Off(implied: int, anchor: int, window: nat): nat
    requires window > 0
  {
    var drift := if implied > anchor then implied - anchor else anchor - implied;
    var residue := drift % window;
    Min(residue, window - residue)
  }

  predicate ForeignByTiming(l: Layout, implied: int, anchor: int)
    requires l.Window() > 0
  {
    Off(implied, anchor, l.Window()) > l.Slot()
  }

  /** Where a frame says its sender's round began: received as it ends, less its
      airtime, its sender's slot and the stage. */
  function Implied(l: Layout, received: int, from: nat, stage: nat, bytes: nat): int
    requires stage < 3
  {
    received - (StageStart(l, stage) + l.Slot() * from + AirtimeMs(bytes))
  }

  lemma Closest(r: nat, w: nat, m: int, s: nat)
    requires r < w && (m == 0 || m >= w || m + w <= 0) && Near(m + r, s)
    ensures Min(r, w - r) <= s
  {
  }

  lemma WholeWindows(k: int, w: nat)
    ensures k * w == 0 || k * w >= w || k * w + w <= 0
  {
    Multiples(k, w);
  }

  lemma Remaining(q: int, z: int, w: nat, r: nat)
    ensures w * q + r - z * w == (q - z) * w + r
  {
  }

  lemma Residue(drift: nat, w: nat, z: int, s: nat)
    requires w > 0 && Near(drift - z * w, s)
    ensures Min(drift % w, w - drift % w) <= s
  {
    var q, r := drift / w, drift % w;
    WholeWindows(q - z, w);
    Remaining(q, z, w, r);
    Closest(r, w, (q - z) * w, s);
  }

  lemma NearestWindow(drift: nat, w: nat) returns (z: int)
    requires w > 0
    ensures Near(drift - z * w, Min(drift % w, w - drift % w))
  {
    var q, r := drift / w, drift % w;
    assert drift == w * q + r == q * w + r;
    assert (q + 1) * w == q * w + w;
    z := if r <= w - r then q else q + 1;
  }

  lemma Negated(x: int, z: int, w: int)
    ensures (-x) - (-z) * w == -(x - z * w)
  {
  }

  /** The test measures the distance to the nearest anchor that names the same
      slots: a frame is foreign exactly if no such anchor is within a slot. */
  lemma ForeignExactly(l: Layout, implied: int, anchor: int)
    requires l.Window() > 0
    ensures !ForeignByTiming(l, implied, anchor) <==> AgreeModulo(anchor, implied, l.Window(), l.Slot())
  {
    var w, s := l.Window(), l.Slot();
    var x := implied - anchor;
    var drift: nat := if x > 0 then x else -x;
    if AgreeModulo(anchor, implied, w, s) {
      var z: int :| Near(implied - anchor - z * w, s);
      Negated(x, z, w);
      Residue(drift, w, if x > 0 then z else -z, s);
    }
    var z := NearestWindow(drift, w);
    Negated(drift, z, w);
    var k := if x > 0 then z else -z;
    assert Near(implied - anchor - k * w, Off(implied, anchor, w));
    if !ForeignByTiming(l, implied, anchor) {
      assert Near(implied - anchor - k * w, s);
    }
  }

  /** No honest first attempt or whole-window retry is called foreign while the
      disagreement and the lateness stay within a slot. */
  lemma HonestIsNotForeign(l: Layout, from: nat, a: int, b: int, stage: nat, attempt: nat,
                           x: Airing, d: nat, e: nat)
    requires stage < 3 && d + e <= l.Slot() && l.Window() > 0
    requires AgreeModulo(b, a, l.Window(), e)
    requires OnTime(x, Due(l, a, from, stage, attempt), d)
    ensures !ForeignByTiming(l, Implied(l, x.End(), from, stage, x.bytes), b)
  {
    var w := l.Window();
    var implied := Implied(l, x.End(), from, stage, x.bytes);
    var z: int :| Near(a - b - z * w, e);
    assert (z + attempt) * w == z * w + attempt * w;
    assert Near(implied - b - (z + attempt) * w, l.Slot());
    ForeignExactly(l, implied, b);
  }
}
