/**
 The registry told from the calls made since deployment: who governs it, what a record
 holds, which relayers are listed, and the reply to every call.
 */
module RegistryHistory {
  import opened Codec
  import opened InputCodec
  import opened Numbers
  import opened RelayerRegistry
  import opened Wrappers

  type Calls = seq<(Call, bool)>

  lemma {:induction false} RunOneMore(s: State, calls: Calls, x: (Call, bool))
    ensures Run(s, calls + [x]) == Next(Run(s, calls), x.0, x.1)
    decreases |calls|
  {
    if |calls| == 0 {
      assert calls + [x] == [x];
    } else {
      RunOneMore(Next(s, calls[0].0, calls[0].1), calls[1..], x);
      assert (calls + [x])[1..] == calls[1..] + [x];
    }
  }

  /** What a call may decide. */
  datatype Topic =
    | Admin
    | FeeCap
    | Terms(relayer: Address)     // endpoint and fee
    | Standing(relayer: Address)  // listed or not

  predicate About(call: Call, topic: Topic) {
    match topic
    case Admin => call.Initialize?
    case FeeCap => call.Initialize? || call.SetMaxFee?
    case Terms(a) => call.Register? && call.relayer == a
    case Standing(a) => (call.Register? || call.Deactivate? || call.Reactivate?) && call.relayer == a
  }

  /** Call k succeeded and is about the topic. */
  predicate Decides(calls: Calls, k: int, topic: Topic) {
    && 0 <= k < |calls| && About(calls[k].0, topic)
    && ReplyTo(Run(EMPTY, calls[..k]), calls[k].0, calls[k].1) == Ok
  }

  /** The last accepted call about a topic. */
  function LastAbout(calls: Calls, topic: Topic): (last: Option<Call>)
    ensures last.Some? ==> About(last.value, topic)
  {
    if |calls| == 0 then None
    else
      var n := |calls| - 1;
      if Decides(calls, n, topic) then Some(calls[n].0) else LastAbout(calls[..n], topic)
  }

  ghost predicate DecidesLast(calls: Calls, k: int, topic: Topic) {
    Decides(calls, k, topic) && forall j :: k < j < |calls| ==> !Decides(calls, j, topic)
  }

  lemma DecidesPrefix(calls: Calls, n: nat, k: int, topic: Topic)
    requires k < n <= |calls|
    ensures Decides(calls[..n], k, topic) <==> Decides(calls, k, topic)
  {
    if 0 <= k {
      assert calls[..n][..k] == calls[..k];
    }
  }

  lemma {:induction false} LastAboutIs(calls: Calls, topic: Topic)
    ensures match LastAbout(calls, topic)
      case None => forall k :: 0 <= k < |calls| ==> !Decides(calls, k, topic)
      case Some(call) => exists k :: DecidesLast(calls, k, topic) && calls[k].0 == call
  {
    if |calls| > 0 {
      var n := |calls| - 1;
      var front := calls[..n];
      LastAboutIs(front, topic);
      forall k | 0 <= k < n
        ensures Decides(front, k, topic) <==> Decides(calls, k, topic)
      {
        DecidesPrefix(calls, n, k, topic);
      }
      if Decides(calls, n, topic) {
        assert DecidesLast(calls, n, topic);
      } else if LastAbout(front, topic).Some? {
        var k :| DecidesLast(front, k, topic) && front[k].0 == LastAbout(front, topic).value;
        assert DecidesLast(calls, k, topic);
      }
    }
  }

  // ------------------------------------------------------------- every record

  /** The record that the history makes out for an address. */
  function RecordOf(calls: Calls, a: Address): Option<RelayerInfo> {
    var terms, standing := LastAbout(calls, Terms(a)), LastAbout(calls, Standing(a));
    if terms.None? || standing.None? then None
    else Some(RelayerInfo(a, terms.value.endpoint, terms.value.feeBps, !standing.value.Deactivate?))
  }

  function RecordIn(s: State, a: Address): Option<RelayerInfo> {
    if a in s.infos then Some(s.infos[a]) else None
  }

  lemma LastAboutPush(calls: Calls, x: (Call, bool), topic: Topic)
    ensures LastAbout(calls + [x], topic) ==
      if ReplyTo(Run(EMPTY, calls), x.0, x.1) == Ok && About(x.0, topic) then Some(x.0) else LastAbout(calls, topic)
  {
    assert (calls + [x])[..|calls|] == calls;
  }

  /** A successful call changes the record it is about, and no other call or record is concerned. */
  lemma RecordStep(s: State, call: Call, authorized: bool, a: Address)
    requires Inv(s)
    ensures RecordIn(Next(s, call, authorized), a) ==
      if ReplyTo(s, call, authorized) != Ok || !About(call, Standing(a)) then RecordIn(s, a)
      else if call.Register? then Some(RelayerInfo(a, call.endpoint, call.feeBps, true))
      else if a in s.infos then Some(s.infos[a].(address := a, active := call.Reactivate?))
      else None
    ensures ReplyTo(s, call, authorized) == Ok && About(call, Standing(a)) && !call.Register? ==> a in s.infos
  {
  }

  /**
   Over every run an address has a record exactly if a registration of it succeeded. The
   record carries endpoint and fee of its last successful registration, and is active
   unless the last successful call to register, deactivate or reactivate it deactivated it.
   */
  lemma {:induction false} RecordsOverRuns(calls: Calls, a: Address)
    ensures RecordIn(Run(EMPTY, calls), a) == RecordOf(calls, a)
    ensures LastAbout(calls, Terms(a)).Some? <==> LastAbout(calls, Standing(a)).Some?
  {
    if |calls| > 0 {
      var n := |calls| - 1;
      var front, x := calls[..n], calls[n];
      assert calls == front + [x];
      RecordsOverRuns(front, a);
      RunOneMore(EMPTY, front, x);
      RunKeepsInv(EMPTY, front);
      LastAboutPush(front, x, Terms(a));
      LastAboutPush(front, x, Standing(a));
      RecordStep(Run(EMPTY, front), x.0, x.1, a);
    }
  }

  function SettingsOf(calls: Calls): Option<Settings> {
    var founding, cap := LastAbout(calls, Admin), LastAbout(calls, FeeCap);
    if founding.None? || cap.None? then None else Some(Settings(founding.value.admin, cap.value.maxFeeBps))
  }

  /** Over every run: the admin of the initialization governs, with the cap that was last set. */
  lemma {:induction false} SettingsOverRuns(calls: Calls)
    ensures Run(EMPTY, calls).settings == SettingsOf(calls)
    ensures LastAbout(calls, Admin).Some? <==> LastAbout(calls, FeeCap).Some?
  {
    if |calls| > 0 {
      var n := |calls| - 1;
      var front, x := calls[..n], calls[n];
      SettingsOverRuns(front);
      RunOneMore(EMPTY, front, x);
      assert calls == front + [x];
    }
  }

  /**
   The reply that the history calls for. Only an authorized first initialization, a
   registration within the cap and with an endpoint, a deactivation by the relayer or
   the admin, a reactivation of a record, and a change of the cap by the admin succeed.
   */
  function DueReply(calls: Calls, registered: nat, call: Call, authorized: bool): Reply {
    var governed := SettingsOf(calls);
    match call
    case Initialize(_, _) =>
      if governed.Some? then Err(AlreadyInitialized) else if authorized then Ok else Trap
    case Register(a, endpoint, feeBps) =>
      if !authorized || governed.None? then Trap
      else if governed.value.maxFeeBps < feeBps then Err(FeeTooHigh)
      else if endpoint == [] then Err(InvalidEndpoint)
      else if RecordOf(calls, a).None? && registered == 0xFFFF_FFFF then Trap
      else Ok
    case Deactivate(caller, a) =>
      if !authorized || governed.None? then Trap
      else if caller != a && caller != governed.value.admin then Err(Unauthorized)
      else if RecordOf(calls, a).None? then Err(RelayerNotFound)
      else Ok
    case Reactivate(a) =>
      if !authorized then Trap
      else if RecordOf(calls, a).None? then Err(RelayerNotFound)
      else Ok
    case SetMaxFee(admin, _) =>
      if !authorized || governed.None? then Trap
      else if admin != governed.value.admin then Err(Unauthorized)
      else Ok
  }

  lemma RegistryReplies(calls: Calls, call: Call, authorized: bool)
    ensures var s := Run(EMPTY, calls);
      ReplyTo(s, call, authorized) == DueReply(calls, |s.order|, call, authorized)
  {
    SettingsOverRuns(calls);
    RunKeepsInv(EMPTY, calls);
    match call
    case Register(a, _, _) => RecordsOverRuns(calls, a);
    case Deactivate(_, a) => RecordsOverRuns(calls, a);
    case Reactivate(a) => RecordsOverRuns(calls, a);
    case _ =>
  }

  // -------------------------------------------------------------- the listing

  /** What the registry answers when asked for the active relayers. */
  ghost function Listing(s: State): seq<RelayerInfo>
    requires Inv(s)
  {
    assert forall i :: 0 <= i < |s.order| ==> s.order[i] in s.infos;
    ActiveInfos(s.order, s.infos)
  }

  lemma ListedInState(s: State, info: RelayerInfo)
    requires Inv(s)
    ensures info in Listing(s) <==> RecordIn(s, info.address) == Some(info) && info.active
  {
    assert forall i :: 0 <= i < |s.order| ==> s.order[i] in s.infos;
    ActiveListing(s.order, s.infos);
  }

  /** Over every run the listing shows exactly the records that the history makes out as active. */
  lemma ListedIff(calls: Calls, info: RelayerInfo)
    ensures Inv(Run(EMPTY, calls))
    ensures info in Listing(Run(EMPTY, calls)) <==> RecordOf(calls, info.address) == Some(info) && info.active
  {
    RunKeepsInv(EMPTY, calls);
    ListedInState(Run(EMPTY, calls), info);
    RecordsOverRuns(calls, info.address);
  }

  /** A registered relayer is listed with the endpoint and the fee it asked for; nobody else is affected. */
  lemma RegistrationLists(s: State, a: Address, endpoint: seq<Byte>, feeBps: u32, info: RelayerInfo)
    requires Inv(s) && ReplyTo(s, Call.Register(a, endpoint, feeBps), true) == Ok
    ensures var s' := Next(s, Call.Register(a, endpoint, feeBps), true);
      && Inv(s')
      && (info in Listing(s') <==>
            if info.address == a then info == RelayerInfo(a, endpoint, feeBps, true) else info in Listing(s))
  {
    var call := Call.Register(a, endpoint, feeBps);
    StepKeepsInv(s, call, true);
    ListedInState(s, info);
    ListedInState(Next(s, call, true), info);
  }

  /** A deactivated relayer is not listed; nobody else is affected. */
  lemma DeactivationDelists(s: State, caller: Address, a: Address, info: RelayerInfo)
    requires Inv(s) && ReplyTo(s, Call.Deactivate(caller, a), true) == Ok
    ensures var s' := Next(s, Call.Deactivate(caller, a), true);
      Inv(s') && (info in Listing(s') <==> info.address != a && info in Listing(s))
  {
    StepKeepsInv(s, Call.Deactivate(caller, a), true);
    ListedInState(s, info);
    ListedInState(Next(s, Call.Deactivate(caller, a), true), info);
  }

  /** A reactivated relayer is listed with its stored record; nobody else is affected. */
  lemma ReactivationLists(s: State, a: Address, info: RelayerInfo)
    requires Inv(s) && ReplyTo(s, Call.Reactivate(a), true) == Ok
    ensures var s' := Next(s, Call.Reactivate(a), true);
      && Inv(s')
      && (info in Listing(s') <==>
            if info.address == a then info == s.infos[a].(active := true) else info in Listing(s))
  {
    StepKeepsInv(s, Call.Reactivate(a), true);
    ListedInState(s, info);
    ListedInState(Next(s, Call.Reactivate(a), true), info);
  }
}
