/** The relayer registry: records by address and an index for enumeration. */
module RelayerRegistry {
  import opened Codec
  import opened InputCodec
  import opened Numbers
  import opened Wrappers

  datatype RelayerInfo = RelayerInfo(address: Address, endpoint: seq<Byte>, feeBps: u32, active: bool)

  datatype RegistryError = AlreadyInitialized | FeeTooHigh | InvalidEndpoint | RelayerNotFound | Unauthorized

  /** Err and Trap both roll the whole call back. */
  datatype Reply = Ok | Err(error: RegistryError) | Trap

  datatype Settings = Settings(admin: Address, maxFeeBps: u32)

  /**
   The registry as a machine: addresses in order of first registration, their
   records, and the fee cap that was in force when each last registered.
   */
  datatype State = State(
    settings: Option<Settings>,
    order: seq<Address>,
    infos: map<Address, RelayerInfo>,
    caps: map<Address, u32>)

  datatype Call =
    | Initialize(admin: Address, maxFeeBps: u32)
    | Register(relayer: Address, endpoint: seq<Byte>, feeBps: u32)
    | Deactivate(caller: Address, relayer: Address)
    | Reactivate(relayer: Address)
    | SetMaxFee(admin: Address, maxFeeBps: u32)

  /** `authorized` is the host's answer to the call's require_auth. */
  function ReplyTo(s: State, call: Call, authorized: bool): Reply {
    match call
    case Initialize(_, _) =>
      if s.settings.Some? then Err(AlreadyInitialized) else if !authorized then Trap else Ok
    case Register(relayer, endpoint, feeBps) =>
      if !authorized || s.settings.None? then Trap
      else if feeBps > s.settings.value.maxFeeBps then Err(FeeTooHigh)
      else if |endpoint| == 0 then Err(InvalidEndpoint)
      else if relayer !in s.infos && |s.order| >= U32_MAX then Trap  // count + 1 overflows
      else Ok
    case Deactivate(caller, relayer) =>
      if !authorized || s.settings.None? then Trap
      else if caller != relayer && caller != s.settings.value.admin then Err(Unauthorized)
      else if relayer !in s.infos then Err(RelayerNotFound)
      else Ok
    case Reactivate(relayer) =>
      if !authorized then Trap
      else if relayer !in s.infos then Err(RelayerNotFound)
      else Ok
    case SetMaxFee(admin, _) =>
      if !authorized || s.settings.None? then Trap
      else if admin != s.settings.value.admin then Err(Unauthorized)
      else Ok
  }

  function Next(s: State, call: Call, authorized: bool): State {
    if ReplyTo(s, call, authorized) != Ok then s
    else match call
      case Initialize(admin, maxFeeBps) => s.(settings := Some(Settings(admin, maxFeeBps)))
      case Register(relayer, endpoint, feeBps) =>
        s.(order := if relayer in s.infos then s.order else s.order + [relayer],
           infos := s.infos[relayer := RelayerInfo(relayer, endpoint, feeBps, true)],
           caps := s.caps[relayer := s.settings.value.maxFeeBps])
      case Deactivate(_, relayer) => s.(infos := s.infos[relayer := s.infos[relayer].(active := false)])
      case Reactivate(relayer) => s.(infos := s.infos[relayer := s.infos[relayer].(active := true)])
      case SetMaxFee(_, maxFeeBps) => s.(settings := Some(s.settings.value.(maxFeeBps := maxFeeBps)))
  }

  function Run(s: State, calls: seq<(Call, bool)>): State
    decreases |calls|
  {
    if |calls| == 0 then s else Run(Next(s, calls[0].0, calls[0].1), calls[1..])
  }

  const EMPTY: State := State(None, [], map[], map[])

  /** Records of the active relayers, in index order. */
  function ActiveInfos(order: seq<Address>, infos: map<Address, RelayerInfo>): seq<RelayerInfo>
    requires forall i :: 0 <= i < |order| ==> order[i] in infos
  {
    if |order| == 0 then []
    else
      var n := |order| - 1;
      ActiveInfos(order[..n], infos) + if infos[order[n]].active then [infos[order[n]]] else []
  }

  function Slots(index: map<nat, Address>, count: nat): (order: seq<Address>)
    requires forall i: nat :: i < count ==> i in index
    ensures |order| == count
    ensures forall i :: 0 <= i < count ==> order[i] == index[i]
  {
    if count == 0 then [] else Slots(index, count - 1) + [index[count - 1]]
  }

  // ---------------------------------------------------------- the contract

  class Registry {
    var initialized: bool
    var admin: Address
    var maxFeeBps: u32
    var relayerCount: u32
    var relayers: map<Address, RelayerInfo>
    var relayerIndex: map<nat, Address>
    ghost var caps: map<Address, u32>

    ghost predicate Valid()
      reads this
    {
      && (forall i: nat :: i in relayerIndex <==> i < relayerCount)
      && (forall i: nat :: i in relayerIndex ==> relayerIndex[i] in relayers)
      && (!initialized ==> relayerCount == 0 && relayers == map[])
    }

    /** The indexed addresses, slot by slot. */
    ghost function Order(): (order: seq<Address>)
      requires Valid()
      reads this
      ensures |order| == relayerCount
      ensures forall i :: 0 <= i < relayerCount ==> order[i] == relayerIndex[i]
    {
      Slots(relayerIndex, relayerCount)
    }

    ghost function Abs(): State
      requires Valid()
      reads this
    {
      State(if initialized then Some(Settings(admin, maxFeeBps)) else None, Order(), relayers, caps)
    }

    constructor ()
      ensures Valid() && Abs() == EMPTY
    {
      initialized, admin, maxFeeBps, relayerCount := false, [], 0, 0;
      relayers, relayerIndex, caps := map[], map[], map[];
    }

    method Initialize(admin: Address, maxFeeBps: u32, authorized: bool) returns (reply: Reply)
      requires Valid()
      modifies this
      ensures Valid()
      ensures reply == ReplyTo(old(Abs()), Call.Initialize(admin, maxFeeBps), authorized)
      ensures Abs() == Next(old(Abs()), Call.Initialize(admin, maxFeeBps), authorized)
    {
      if initialized { return Err(AlreadyInitialized); }
      if !authorized { return Trap; }
      this.admin := admin;
      this.maxFeeBps := maxFeeBps;
      relayerCount := 0;
      initialized := true;
      reply := Ok;
    }

    method Register(relayer: Address, endpoint: seq<Byte>, feeBps: u32, authorized: bool) returns (reply: Reply)
      requires Valid()
      modifies this
      ensures Valid()
      ensures reply == ReplyTo(old(Abs()), Call.Register(relayer, endpoint, feeBps), authorized)
      ensures Abs() == Next(old(Abs()), Call.Register(relayer, endpoint, feeBps), authorized)
    {
      if !authorized || !initialized { return Trap; }
      if feeBps > maxFeeBps { return Err(FeeTooHigh); }
      if |endpoint| == 0 { return Err(InvalidEndpoint); }
      var isNew := relayer !in relayers;
      if isNew && relayerCount == U32_MAX { return Trap; }
      ghost var before := Order();
      relayers := relayers[relayer := RelayerInfo(relayer, endpoint, feeBps, true)];
      caps := caps[relayer := maxFeeBps];
      if isNew {
        relayerIndex := relayerIndex[relayerCount := relayer];
        relayerCount := relayerCount + 1;
        assert Order() == before + [relayer];
      }
      reply := Ok;
    }

    method Deactivate(caller: Address, relayer: Address, authorized: bool) returns (reply: Reply)
      requires Valid()
      modifies this
      ensures Valid()
      ensures reply == ReplyTo(old(Abs()), Call.Deactivate(caller, relayer), authorized)
      ensures Abs() == Next(old(Abs()), Call.Deactivate(caller, relayer), authorized)
    {
      if !authorized || !initialized { return Trap; }
      if caller != relayer && caller != admin { return Err(Unauthorized); }
      if relayer !in relayers { return Err(RelayerNotFound); }
      relayers := relayers[relayer := relayers[relayer].(active := false)];
      reply := Ok;
    }

    method Reactivate(relayer: Address, authorized: bool) returns (reply: Reply)
      requires Valid()
      modifies this
      ensures Valid()
      ensures reply == ReplyTo(old(Abs()), Call.Reactivate(relayer), authorized)
      ensures Abs() == Next(old(Abs()), Call.Reactivate(relayer), authorized)
    {
      if !authorized { return Trap; }
      if relayer !in relayers { return Err(RelayerNotFound); }
      relayers := relayers[relayer := relayers[relayer].(active := true)];
      reply := Ok;
    }

    method SetMaxFee(admin: Address, maxFeeBps: u32, authorized: bool) returns (reply: Reply)
      requires Valid()
      modifies this
      ensures Valid()
      ensures reply == ReplyTo(old(Abs()), Call.SetMaxFee(admin, maxFeeBps), authorized)
      ensures Abs() == Next(old(Abs()), Call.SetMaxFee(admin, maxFeeBps), authorized)
    {
      if !authorized || !initialized { return Trap; }
      if admin != this.admin { return Err(Unauthorized); }
      this.maxFeeBps := maxFeeBps;
      reply := Ok;
    }

    method GetActiveRelayers() returns (result: seq<RelayerInfo>)
      requires Valid()
      ensures result == ActiveInfos(Order(), relayers)
    {
      ghost var order := Order();
      result := [];
      for i := 0 to relayerCount
        invariant result == ActiveInfos(order[..i], relayers)
      {
        assert order[..i + 1][..i] == order[..i];
        if i in relayerIndex {
          var addr := relayerIndex[i];
          if addr in relayers {
            var info := relayers[addr];
            if info.active {
              result := result + [info];
            }
          }
        }
      }
      assert order[..relayerCount] == order;
    }
  }

  // ------------------------------------------------------------ over all runs

  /** Each registered address is indexed once; each record is its address's own and within its cap. */
  ghost predicate Inv(s: State) {
    && (forall i, j :: 0 <= i < j < |s.order| ==> s.order[i] != s.order[j])
    && (forall a :: a in s.infos <==> a in s.order)
    && |s.order| <= U32_MAX
    && (forall a :: a in s.infos ==>
          s.infos[a].address == a && a in s.caps && s.infos[a].feeBps <= s.caps[a])
  }

  lemma StepKeepsInv(s: State, call: Call, authorized: bool)
    requires Inv(s)
    ensures Inv(Next(s, call, authorized))
    ensures s.order <= Next(s, call, authorized).order
  {
  }

  /** Over every run the index stays a bijection and first-registration order is never disturbed. */
  lemma {:induction false} RunKeepsInv(s: State, calls: seq<(Call, bool)>)
    requires Inv(s)
    ensures Inv(Run(s, calls))
    ensures s.order <= Run(s, calls).order
    decreases |calls|
  {
    if |calls| > 0 {
      StepKeepsInv(s, calls[0].0, calls[0].1);
      RunKeepsInv(Next(s, calls[0].0, calls[0].1), calls[1..]);
    }
  }

  /** One address is indexed before another. */
  ghost predicate Before(order: seq<Address>, a: Address, b: Address) {
    exists i, j :: 0 <= i < j < |order| && order[i] == a && order[j] == b
  }

  /** The listing holds each active relayer's record once, no other, in index order. */
  lemma {:induction false} ActiveListing(order: seq<Address>, infos: map<Address, RelayerInfo>)
    requires forall i, j :: 0 <= i < j < |order| ==> order[i] != order[j]
    requires forall i :: 0 <= i < |order| ==> order[i] in infos && infos[order[i]].address == order[i]
    ensures var list := ActiveInfos(order, infos);
      && (forall info :: info in list <==> info.address in order && info == infos[info.address] && info.active)
      && (forall i, j :: 0 <= i < j < |list| ==> Before(order, list[i].address, list[j].address))
      && (forall i, j :: 0 <= i < j < |list| ==> list[i].address != list[j].address)
  {
    if |order| > 0 {
      var n := |order| - 1;
      var front, last := order[..n], order[n];
      assert order == front + [last];
      ActiveListing(front, infos);
      var shorter, list := ActiveInfos(front, infos), ActiveInfos(order, infos);
      assert last !in front;
      forall i, j | 0 <= i < j < |list|
        ensures Before(order, list[i].address, list[j].address) && list[i].address != list[j].address
      {
        assert list[i] in shorter;
        if j < |shorter| {
          assert Before(front, shorter[i].address, shorter[j].address);
          var x, y :| 0 <= x < y < n && front[x] == shorter[i].address && front[y] == shorter[j].address;
          assert order[x] == list[i].address && order[y] == list[j].address;
        } else {
          assert shorter[i].address in front;
          var x :| 0 <= x < n && front[x] == shorter[i].address;
          assert order[x] == list[i].address && order[n] == list[j].address;
        }
      }
    }
  }

  /**
   In every reachable state each registered address has exactly one slot, the listing
   shows every active relayer once in order of first registration, and every stored
   fee is within the cap in force when that relayer last registered.
   */
  lemma RegistryOverRuns(calls: seq<(Call, bool)>)
    ensures var s := Run(EMPTY, calls);
      && Inv(s)
      && var list := ActiveInfos(s.order, s.infos);
      && (forall a :: a in s.infos && s.infos[a].active <==> a in s.infos && s.infos[a] in list)
      && (forall info :: info in list ==> info.address in s.infos && info == s.infos[info.address])
      && (forall i, j :: 0 <= i < j < |list| ==> Before(s.order, list[i].address, list[j].address))
      && (forall i, j :: 0 <= i < j < |list| ==> list[i].address != list[j].address)
  {
    RunKeepsInv(EMPTY, calls);
    var s := Run(EMPTY, calls);
    assert forall i :: 0 <= i < |s.order| ==> s.order[i] in s.infos;
    ActiveListing(s.order, s.infos);
  }
}
