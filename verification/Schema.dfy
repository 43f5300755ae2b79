/** The rows of the database, and the parsers that fill them. */
module Schema {
  import opened Prelude
  import opened Ranking
  import opened Events

  type OrderId = string
  type DisputeId = string

  datatype Network = Mainnet | Testnet | Signet | Regtest

  datatype Direction = Buy | Sell

  datatype OrderStatus = Pending | InProgress | Success | Canceled

  /** One amount, or the bounds of a range order not yet taken. */
  datatype FiatAmount = Fixed(amount: real) | Range(min: real, max: real)

  /** One row of `order_versions`: one kind 38383 event. */
  datatype OrderVersion = OrderVersion(
    eventId: EventId,
    orderId: OrderId,
    pubkey: PubKey,
    createdAt: nat,
    direction: Direction,
    status: OrderStatus,
    fiatCode: string,
    amountSats: int,
    fiat: FiatAmount,
    paymentMethods: string,
    premium: real,
    network: Option<Network>,
    expiresAt: nat,
    orderCreatedAt: Option<nat>)

  /** One row of `orders`: an order as it stands. */
  datatype Order = Order(
    orderId: OrderId,
    pubkey: PubKey,
    firstSeenAt: nat,
    lastUpdatedAt: nat,
    finalStatus: OrderStatus,
    direction: Direction,
    fiatCode: string,
    amountSats: int,
    fiatAmount: Option<real>,
    paymentMethods: string,
    premium: real,
    network: Option<Network>,
    successAt: Option<nat>,
    canceledAt: Option<nat>,
    orderCreatedAt: Option<nat>)

  datatype DisputeStatus =
    | Initiated | Solving | SellerRefunded | Settled | Released | CooperativelyCanceled

  datatype Initiator = Buyer | Seller

  /** One row of `dispute_versions`: one kind 38386 event. */
  datatype DisputeVersion = DisputeVersion(
    eventId: EventId,
    disputeId: DisputeId,
    pubkey: PubKey,
    createdAt: nat,
    status: DisputeStatus,
    initiator: Option<Initiator>,
    openedAt: Option<nat>)

  /** One row of `disputes`. */
  datatype Dispute = Dispute(
    disputeId: DisputeId,
    pubkey: PubKey,
    openedAt: Option<nat>,
    lastUpdatedAt: nat,
    finalStatus: DisputeStatus,
    initiator: Option<Initiator>)

  /** One kind 8383 event. */
  datatype DevFee = DevFee(
    eventId: EventId,
    pubkey: PubKey,
    orderId: OrderId,
    amountSats: int,
    paymentHash: string,
    destination: Option<string>,
    network: Option<Network>,
    createdAt: nat)

  /** One row of a table whose rows can repeat one another, and whether this one
      does: `dev_fees` is such a table. */
  datatype Marked<+V> = Marked(row: V, isDuplicate: bool)

  /** One row of `instance_info`; `profile` is the columns beside the fee. */
  datatype InstanceInfo = InstanceInfo(
    eventId: EventId,
    pubkey: PubKey,
    createdAt: nat,
    fee: Option<real>,
    profile: string)

  /** One row of `rates`: one kind 30078 event. */
  datatype RateSnapshot = RateSnapshot(
    eventId: EventId,
    pubkey: PubKey,
    publishedAt: nat,
    source: Option<string>,
    rates: map<string, real>)

  datatype Source = Config | Nip65(pubkey: PubKey)

  /** One row of `relays`, by url. */
  datatype RelayRow = RelayRow(source: Source, firstSeenAt: int)

  /** One row of `instances`, by public key. */
  datatype Instance = Instance(
    name: Option<string>,
    nameSeenAt: Option<nat>,
    firstSeenAt: nat,
    lastSeenAt: nat)

  /** One row of `sync_state`, by relay and kind. */
  datatype Cursor = Cursor(lastCreatedAt: nat, updatedAt: int)

  /** One row of `events`: the event, and who brought it first and when. */
  datatype Archived = Archived(event: Event, relayUrl: Url, seenAt: int)

  type Archive = map<EventId, Archived>

  /** The tables that hold nothing the archive does not determine. */
  datatype Derived = Derived(
    orderVersions: map<EventId, OrderVersion>,
    orders: map<OrderId, Order>,
    disputeVersions: map<EventId, DisputeVersion>,
    disputes: map<DisputeId, Dispute>,
    devFees: map<EventId, Marked<DevFee>>,
    info: map<EventId, InstanceInfo>,
    rates: map<EventId, RateSnapshot>)

  /** The whole database. */
  datatype Tables = Tables(
    events: Archive,
    derived: Derived,
    relays: map<Url, RelayRow>,
    instances: map<PubKey, Instance>,
    names: map<(PubKey, string), nat>,
    cursors: map<(Url, Kind), Cursor>)

  const NOTHING := Derived(map[], map[], map[], map[], map[], map[], map[])
  const EMPTY := Tables(map[], NOTHING, map[], map[], map[], map[])

  /** Why an event was not indexed. */
  datatype Rejection =
    | InvalidSignature
    | UnknownInstance
    | UnvouchedPublisher
    | OtherPlatform
    | OtherNetwork(network: Network)
    | UnsupportedKind
    | Malformed

  /** One event, parsed into whatever its kind means. */
  datatype Parsed =
    | ParsedOrder(order: OrderVersion)
    | ParsedFee(fee: DevFee)
    | ParsedDispute(dispute: DisputeVersion)
    | ParsedInfo(info: InstanceInfo)
    | ParsedRates(snapshot: RateSnapshot)
    | ParsedRelayList(relays: set<Url>)

  /** Signature checking and the readers of tags and content, left open: every
      result holds whatever they answer. The two announcement kinds are read
      through tags that may not repeat, so their readers see the tags without
      their order. */
  datatype Parsers = Parsers(
    verify: Event -> bool,
    hex: PubKey -> string,
    network: seq<Tag> -> Result<Option<Network>, string>,
    order: Event -> Option<OrderVersion>,
    devFee: Event -> Option<DevFee>,
    dispute: Event -> Option<DisputeVersion>,
    info: (PubKey, multiset<Tag>) -> Option<InstanceInfo>,
    rates: Event -> Option<RateSnapshot>,
    relays: multiset<Tag> -> set<Url>)

  /** An instance info is about its publisher: its address is the publisher's own key. */
  function ReadInfo(p: Parsers, e: Event): Option<InstanceInfo> {
    if TagValues(e.tags, "d") == Single([p.hex(e.pubkey)]) then p.info(e.pubkey, multiset(e.tags)) else None
  }

  /** The `d` tag of a rate snapshot. */
  const RATES_IDENTIFIER := "mostro-rates"

  /** The kind is shared by every application; the identifier makes an event of it a rate
      snapshot. */
  function ReadRates(p: Parsers, e: Event): Option<RateSnapshot> {
    if TagValues(e.tags, "d") == Single([RATES_IDENTIFIER]) then p.rates(e) else None
  }

  /** The event's kind decides which parser reads it; every row is stamped with
      the id, the publisher and the clock of its event. */
  function Parse(p: Parsers, e: Event): Result<Parsed, Rejection> {
    if e.kind == ORDER then
      match p.order(e)
      case Some(v) => Ok(ParsedOrder(v.(eventId := e.id, pubkey := e.pubkey, createdAt := e.createdAt)))
      case None => Err(Malformed)
    else if e.kind == DEV_FEE then
      match p.devFee(e)
      case Some(f) => Ok(ParsedFee(f.(eventId := e.id, pubkey := e.pubkey, createdAt := e.createdAt)))
      case None => Err(Malformed)
    else if e.kind == DISPUTE then
      match p.dispute(e)
      case Some(v) => Ok(ParsedDispute(v.(eventId := e.id, pubkey := e.pubkey, createdAt := e.createdAt)))
      case None => Err(Malformed)
    else if e.kind == INFO then
      match ReadInfo(p, e)
      case Some(i) => Ok(ParsedInfo(i.(eventId := e.id, pubkey := e.pubkey, createdAt := e.createdAt)))
      case None => Err(Malformed)
    else if e.kind == RATES then
      match ReadRates(p, e)
      case Some(r) => Ok(ParsedRates(r.(eventId := e.id, pubkey := e.pubkey)))
      case None => Err(Malformed)
    else if e.kind == RELAY_LIST then Ok(ParsedRelayList(p.relays(multiset(e.tags))))
    else Err(UnsupportedKind)
  }

  predicate Parses(p: Parsers, e: Event) {
    Parse(p, e).Ok?
  }
}
