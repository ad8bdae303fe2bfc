/** The fleet manifest: what a file says, what makes it a fleet, and the canonical
    bytes a signature covers. */
module Manifest {
  import opened Basics
  import opened ManifestText
  import opened HandKey
  import Postcard
  import CompactFrame
  import Quorum

  type text = Postcard.text
  type signature = CompactFrame.signature

  datatype ManifestError =
    | UnknownDirective(line: nat, word: string)
    | Malformed(line: nat)
    | NotANumber(line: nat)
    | NotCanonicalNumber(line: nat)
    | NotHex(line: nat, bytes: nat)
    | MissingDirective(directive: Directive)
    | UnsupportedVersion(line: nat, version: nat)
    | Repeated(line: nat, directive: Directive)
    | OutOfOrder(line: nat)
    | LabelCharset(line: nat)
    | LabelTooLong(line: nat, found: nat)
    | NotAKey(line: nat, index: nat)
    | DuplicateIndex(line: nat, index: nat)
    | DuplicateId(line: nat)
    | DuplicateKey(line: nat, index: nat)
    | NoMembers
    | IndicesNotContiguous(missing: nat, size: nat)
    | FleetTooLarge(size: nat)
    | PhyProfileMismatch(line: nat)
    | HeardCapacityMismatch(line: nat, found: nat)
    | ValidityInverted(from: nat, until: nat)
    | BadSignature
    | NotYetValid(from: nat, now: nat)
    | Expired(until: nat, now: nat)
    | PolicyRefused

  datatype Directive =
    | Version | Epoch | ValidFrom | ValidUntil | GroupKey | ByzantineBps | MaxCompetenceRatio
    | PhyProfile | HeardCapacity | MemberLine | Issuer | SignatureLine | Other

  function DirectiveOf(word: string): Directive {
    if word == "version" then Version
    else if word == "epoch" then Epoch
    else if word == "valid-from" then ValidFrom
    else if word == "valid-until" then ValidUntil
    else if word == "group-key" then GroupKey
    else if word == "byzantine-bps" then ByzantineBps
    else if word == "max-competence-ratio" then MaxCompetenceRatio
    else if word == "phy-profile" then PhyProfile
    else if word == "heard-capacity" then HeardCapacity
    else if word == "member" then MemberLine
    else if word == "issuer" then Issuer
    else if word == "signature" then SignatureLine
    else Other
  }

  const MANIFEST_VERSION: u32 := 2
  const MAX_LABEL_BYTES: nat := 32
  const CAPACITY: nat := 64
  const PROFILE: string := "eu868-sf10-v1"

  datatype Member = Member(index: u16, competence: byte, key: key, id: text)

  /** What a file has said so far. */
  datatype Content = Content(
    version: Option<u32>,
    epoch: Option<u16>,
    validFrom: Option<u64>,
    validUntil: Option<u64>,
    groupKeyId: Option<key>,
    byzantineBps: Option<u32>,
    maxCompetenceRatio: Option<u32>,
    phyProfile: Option<text>,
    heardCapacity: Option<u16>,
    members: seq<Member>,
    issuer: Option<string>,
    signature: Option<signature>)

  const NOTHING: Content :=
    Content(None, None, None, None, None, None, None, None, None, [], None, None)

  datatype Manifest = Manifest(
    epoch: u16, validFrom: u64, validUntil: u64, groupKeyId: key, byzantineBps: u32,
    maxCompetenceRatio: u32, phyProfile: text, heardCapacity: u16, members: seq<Member>,
    issuer: string, signature: signature)

  // ---- fields ----

  predicate IsAscii(word: string) {
    forall k :: 0 <= k < |word| ==> (word[k] as int) < 0x80
  }

  function Ascii(word: string): text
    requires IsAscii(word)
  {
    var bytes: seq<byte> := seq(|word|, k requires 0 <= k < |word| => word[k] as int);
    Postcard.AsciiIsUtf8(bytes);
    bytes
  }

  /** How many bytes a word takes in UTF-8. */
  function ByteLength(word: string): nat {
    if word == [] then 0
    else
      var c := word[|word| - 1] as int;
      ByteLength(word[..|word| - 1])
      + if c < 0x80 then 1 else if c < 0x800 then 2 else if c < 0x1_0000 then 3 else 4
  }

  predicate LabelChar(c: char) {
    '0' <= c <= '9' || 'a' <= c <= 'z' || 'A' <= c <= 'Z' || c == '-' || c == '_'
  }

  function Label(word: string, line: nat): (r: Result<text, ManifestError>)
  {
    if ByteLength(word) > MAX_LABEL_BYTES then Err(LabelTooLong(line, ByteLength(word)))
    else if word == [] || exists k :: 0 <= k < |word| && !LabelChar(word[k]) then Err(LabelCharset(line))
    else Ok(Ascii(word))
  }

  function OneArgument(words: seq<string>, line: nat): Result<string, ManifestError> {
    if |words| != 2 then Err(Malformed(line)) else Ok(words[1])
  }

  function NumberIn(word: string, max: nat, line: nat): (r: Result<nat, ManifestError>)
    ensures r.Ok? ==> r.value <= max
  {
    match CanonicalNumber(word, max)
    case Ok(n) => Ok(n)
    case Err(NotCanonical) => Err(NotCanonicalNumber(line))
    case Err(NotANumber) => Err(ManifestError.NotANumber(line))
  }

  function Number(words: seq<string>, max: nat, line: nat): (r: Result<nat, ManifestError>)
    ensures r.Ok? ==> r.value <= max
  {
    match OneArgument(words, line)
    case Err(e) => Err(e)
    case Ok(word) => NumberIn(word, max, line)
  }

  /** A `u16` read through `u32`. */
  function Bounded(words: seq<string>, line: nat): (r: Result<u16, ManifestError>) {
    match Number(words, 0xFFFF_FFFF, line)
    case Err(e) => Err(e)
    case Ok(n) => if n > 0xFFFF then Err(ManifestError.NotANumber(line)) else Ok(n)
  }

  function Hexadecimal(words: seq<string>, n: nat, line: nat): (r: Result<seq<byte>, ManifestError>)
    ensures r.Ok? ==> |r.value| == n
  {
    match OneArgument(words, line)
    case Err(e) => Err(e)
    case Ok(word) =>
      match HexBytes(word, n)
      case None => Err(NotHex(line, n))
      case Some(bytes) => Ok(bytes)
  }

  /** A member line by itself. `isKey` says which bytes are a public key. */
  function MemberOf(isKey: key -> bool, words: seq<string>, line: nat): Result<Member, ManifestError> {
    if |words| != 5 then Err(Malformed(line))
    else
      match NumberIn(words[1], 0xFFFF, line)
      case Err(e) => Err(e)
      case Ok(index) =>
        match NumberIn(words[2], 0xFF, line)
        case Err(e) => Err(e)
        case Ok(competence) =>
          match HexBytes(words[3], 32)
          case None => Err(NotHex(line, 32))
          case Some(bytes) =>
            if !isKey(bytes) then Err(NotAKey(line, index))
            else
              match Label(words[4], line)
              case Err(e) => Err(e)
              case Ok(id) => Ok(Member(index, competence, bytes, id))
  }

  predicate IndexTaken(members: seq<Member>, index: u16) {
    exists k :: 0 <= k < |members| && members[k].index == index
  }

  predicate IdTaken(members: seq<Member>, id: text) {
    exists k :: 0 <= k < |members| && members[k].id == id
  }

  predicate KeyTaken(members: seq<Member>, held: key) {
    exists k :: 0 <= k < |members| && members[k].key == held
  }

  /** One principal, one seat. */
  function Seated(c: Content, m: Member, line: nat): Result<Content, ManifestError> {
    if IndexTaken(c.members, m.index) then Err(DuplicateIndex(line, m.index))
    else if IdTaken(c.members, m.id) then Err(DuplicateId(line))
    else if KeyTaken(c.members, m.key) then Err(DuplicateKey(line, m.index))
    else Ok(c.(members := c.members + [m]))
  }

  // ---- one line ----

  function Applied(isKey: key -> bool, c: Content, words: seq<string>, line: nat)
    : Result<Content, ManifestError>
    requires words != []
  {
    match DirectiveOf(words[0])
    case Version =>
      if c.version.Some? then Err(Repeated(line, Version))
      else
        (match Number(words, 0xFFFF_FFFF, line)
         case Err(e) => Err(e)
         case Ok(n) =>
           if n != MANIFEST_VERSION then Err(UnsupportedVersion(line, n))
           else Ok(c.(version := Some(n))))
    case Epoch =>
      if c.epoch.Some? then Err(Repeated(line, Epoch))
      else
        (match Bounded(words, line)
         case Err(e) => Err(e)
         case Ok(n) => Ok(c.(epoch := Some(n))))
    case ValidFrom =>
      if c.validFrom.Some? then Err(Repeated(line, ValidFrom))
      else
        (match Number(words, U64_MAX, line)
         case Err(e) => Err(e)
         case Ok(n) => Ok(c.(validFrom := Some(n))))
    case ValidUntil =>
      if c.validUntil.Some? then Err(Repeated(line, ValidUntil))
      else
        (match Number(words, U64_MAX, line)
         case Err(e) => Err(e)
         case Ok(n) => Ok(c.(validUntil := Some(n))))
    case GroupKey =>
      if c.groupKeyId.Some? then Err(Repeated(line, GroupKey))
      else
        (match Hexadecimal(words, 32, line)
         case Err(e) => Err(e)
         case Ok(bytes) => Ok(c.(groupKeyId := Some(bytes))))
    case ByzantineBps =>
      if c.byzantineBps.Some? then Err(Repeated(line, ByzantineBps))
      else
        (match Number(words, 0xFFFF_FFFF, line)
         case Err(e) => Err(e)
         case Ok(n) => Ok(c.(byzantineBps := Some(n))))
    case MaxCompetenceRatio =>
      if c.maxCompetenceRatio.Some? then Err(Repeated(line, MaxCompetenceRatio))
      else
        (match Number(words, 0xFFFF_FFFF, line)
         case Err(e) => Err(e)
         case Ok(n) => Ok(c.(maxCompetenceRatio := Some(n))))
    case PhyProfile =>
      if c.phyProfile.Some? then Err(Repeated(line, PhyProfile))
      else
        (match OneArgument(words, line)
         case Err(e) => Err(e)
         case Ok(word) =>
           if word != PROFILE then Err(PhyProfileMismatch(line))
           else Ok(c.(phyProfile := Some(ProfileBytes()))))
    case HeardCapacity =>
      if c.heardCapacity.Some? then Err(Repeated(line, HeardCapacity))
      else
        (match Bounded(words, line)
         case Err(e) => Err(e)
         case Ok(n) =>
           if n != CAPACITY then Err(HeardCapacityMismatch(line, n))
           else Ok(c.(heardCapacity := Some(n))))
    case MemberLine =>
      (match MemberOf(isKey, words, line)
       case Err(e) => Err(e)
       case Ok(m) => Seated(c, m, line))
    case Issuer =>
      if c.issuer.Some? then Err(Repeated(line, Issuer))
      else
        (match OneArgument(words, line)
         case Err(e) => Err(e)
         case Ok(word) => Ok(c.(issuer := Some(word))))
    case SignatureLine =>
      (match Hexadecimal(words, 64, line)
       case Err(e) => Err(e)
       case Ok(bytes) => Ok(c.(signature := Some(bytes))))
    case Other => Err(UnknownDirective(line, words[0]))
  }

  function ProfileBytes(): text {
    Ascii(PROFILE)
  }

  predicate IsHeader(d: Directive) {
    d != MemberLine && d != Issuer && d != SignatureLine
  }

  /** One line of the file: order first, then what it says. */
  function Step(isKey: key -> bool, c: Content, words: seq<string>, line: nat)
    : Result<Content, ManifestError>
  {
    if words == [] then Ok(c)
    else if c.signature.Some? then Err(OutOfOrder(line))
    else
      var d := DirectiveOf(words[0]);
      if IsHeader(d) && c.members != [] then Err(OutOfOrder(line))
      else if IsHeader(d) && d != Version && c.version == None then Err(MissingDirective(Version))
      else Applied(isKey, c, words, line)
  }

  /** The lines one after another; `line` numbers the first of them. */
  function Reading(isKey: key -> bool, c: Content, lines: seq<seq<string>>, line: nat)
    : Result<Content, ManifestError>
    decreases |lines|
  {
    if lines == [] then Ok(c)
    else
      match Step(isKey, c, lines[0], line)
      case Err(e) => Err(e)
      case Ok(next) => Reading(isKey, next, lines[1..], line + 1)
  }

  function Tokens(file: string): (r: seq<seq<string>>)
    ensures |r| == |Lines(file)|
  {
    seq(|Lines(file)|, i requires 0 <= i < |Lines(file)| => Words(Lines(file)[i]))
  }

  function Read(isKey: key -> bool, lines: seq<seq<string>>, wantSignature: bool)
    : Result<Content, ManifestError>
  {
    match Reading(isKey, NOTHING, lines, 1)
    case Err(e) => Err(e)
    case Ok(c) =>
      if c.version == None then Err(MissingDirective(Version))
      else if wantSignature && c.signature == None then Err(MissingDirective(SignatureLine))
      else Ok(c)
  }

  // ---- settling ----

  function Missing(c: Content): Option<Directive> {
    if c.epoch == None then Some(Epoch)
    else if c.validFrom == None then Some(ValidFrom)
    else if c.validUntil == None then Some(ValidUntil)
    else if c.groupKeyId == None then Some(GroupKey)
    else if c.byzantineBps == None then Some(ByzantineBps)
    else if c.maxCompetenceRatio == None then Some(MaxCompetenceRatio)
    else if c.phyProfile == None then Some(PhyProfile)
    else if c.heardCapacity == None then Some(HeardCapacity)
    else None
  }

  function Inserted(sorted: seq<Member>, m: Member): seq<Member> {
    if sorted == [] || m.index < sorted[0].index then [m] + sorted
    else [sorted[0]] + Inserted(sorted[1..], m)
  }

  /** `sort_by_key` on the index, which keeps equal members in order. */
  function SortedByIndex(members: seq<Member>): seq<Member> {
    if members == [] then []
    else Inserted(SortedByIndex(members[..|members| - 1]), members[|members| - 1])
  }

  /** The first place where a member's index is not its place. */
  function FirstGap(sorted: seq<Member>): (i: nat)
    ensures i <= |sorted|
    ensures i < |sorted| ==> sorted[i].index != i
    ensures forall k :: 0 <= k < i ==> sorted[k].index == k
  {
    if sorted == [] then 0
    else
      var last := |sorted| - 1;
      var i := FirstGap(sorted[..last]);
      if i < last then i else if sorted[last].index != last then last else last + 1
  }

  function Settled(c: Content): Result<Content, ManifestError> {
    match Missing(c)
    case Some(d) => Err(MissingDirective(d))
    case None =>
      if c.validUntil.value <= c.validFrom.value then
        Err(ValidityInverted(c.validFrom.value, c.validUntil.value))
      else if c.members == [] then Err(NoMembers)
      else if |c.members| > CAPACITY then Err(FleetTooLarge(|c.members|))
      else
        var sorted := SortedByIndex(c.members);
        if FirstGap(sorted) < |sorted| then Err(IndicesNotContiguous(FirstGap(sorted), |sorted|))
        else Ok(c.(members := sorted))
  }

  // ---- the canonical form ----

  const CANONICAL_DOMAIN: seq<byte> :=
    [0x6C, 0x63, 0x71, 0x2D, 0x6D, 0x61, 0x6E, 0x69, 0x66, 0x65, 0x73, 0x74, 0x2D, 0x76, 0x32]
  const VERSION_BYTE: byte := 2

  /** One length byte, then the bytes. */
  function PushedText(t: text): seq<byte> {
    [|t| % 256] + t
  }

  function PushedMember(m: Member): seq<byte> {
    BigEndian(m.index, 2) + ([m.competence] + (m.key + PushedText(m.id)))
  }

  function PushedMembers(members: seq<Member>): seq<byte> {
    if members == [] then [] else PushedMember(members[0]) + PushedMembers(members[1..])
  }

  /** Everything before the members, each field at its own width. */
  function HeaderParts(m: Manifest): seq<seq<byte>> {
    [CANONICAL_DOMAIN,
     [VERSION_BYTE],
     BigEndian(m.epoch, 2),
     BigEndian(m.validFrom, 8),
     BigEndian(m.validUntil, 8),
     m.groupKeyId,
     BigEndian(m.byzantineBps, 4),
     BigEndian(m.maxCompetenceRatio, 4),
     PushedText(m.phyProfile),
     BigEndian(m.heardCapacity, 2),
     BigEndian(|m.members| % 0x1_0000, 2)]
  }

  function CanonicalBytes(m: Manifest): seq<byte> {
    CompactFrame.Concat(HeaderParts(m)) + PushedMembers(m.members)
  }

  // ---- finishing ----

  function Seats(members: seq<Member>): (r: seq<(text, Quorum.score)>)
    ensures |r| == |members|
  {
    seq(|members|, i requires 0 <= i < |members| => (members[i].id, members[i].competence))
  }

  ghost predicate LawfulPolicy(c: Content) {
    c.byzantineBps.Some? && c.maxCompetenceRatio.Some?
    && Quorum.Acceptable(Seats(c.members), c.byzantineBps.value, c.maxCompetenceRatio.value)
  }

  function NoSignature(): signature {
    seq(64, _ => 0)
  }

  function Assembled(c: Content): Manifest
    requires Missing(c) == None
  {
    Manifest(c.epoch.value, c.validFrom.value, c.validUntil.value, c.groupKeyId.value,
             c.byzantineBps.value, c.maxCompetenceRatio.value, c.phyProfile.value,
             c.heardCapacity.value, c.members,
             if c.issuer.Some? then c.issuer.value else [],
             if c.signature.Some? then c.signature.value else NoSignature())
  }

  ghost function Finished(c: Content): Result<Manifest, ManifestError> {
    match Settled(c)
    case Err(e) => Err(e)
    case Ok(settled) => if LawfulPolicy(settled) then Ok(Assembled(settled)) else Err(PolicyRefused)
  }

  /** Reading a manifest: structure only. */
  ghost function Parsed(isKey: key -> bool, file: string): Result<Manifest, ManifestError> {
    ParsedLines(isKey, Tokens(file))
  }

  ghost function ParsedLines(isKey: key -> bool, lines: seq<seq<string>>)
    : Result<Manifest, ManifestError>
  {
    match Read(isKey, lines, true)
    case Err(e) => Err(e)
    case Ok(c) => Finished(c)
  }

  /** Whether `admin` signed it and `now` lies in its window. */
  function Verified(verify: (seq<byte>, signature) -> bool, m: Manifest, now: u64)
    : Result<(), ManifestError>
  {
    if !verify(CanonicalBytes(m), m.signature) then Err(BadSignature)
    else if now < m.validFrom then Err(NotYetValid(m.validFrom, now))
    else if now >= m.validUntil then Err(Expired(m.validUntil, now))
    else Ok(())
  }
}
