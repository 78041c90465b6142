/**
 * The hub's request dispatcher: which request a client message is, given
 * the client's authentication state, and what handling it does to the
 * client, the variable store and the outside world.
 */
module HubProcess {
  import opened Wrappers
  import opened LibC
  import opened Comm
  import opened Notify
  import opened HubNet
  import opened HubVar
  import opened HubClient
  import Logging

  /** The requests the handlers recognise, with the components they use. */
  datatype Request =
    | Auth(supplied: string)
    | Shutdown
    | NotifyOut(body: string)
    | AddFilter(kindText: string, pattern: string)
    | ClearFilters
    | VarGet(name: string)
    | VarSet(name: string, valueText: string)
    | Log(app: string, levelText: string, text: string)
      /** Anything else: the handler returns -1 and does nothing. */
    | Rejected

  /**
   * Hub_Process_process's dispatch and the count and keyword tests of
   * its handlers. COMM is looked at in any state, NOTIFY, VAR and LOG only
   * once the client is CONNECTED.
   */
  function Classify(state: ClientState, m: Message): (req: Request)
    requires |m.components| >= 1
    ensures m.components[0] != "COMM" && state != Connected ==> req == Rejected
    ensures req.Auth? <==> m.components[0] == "COMM" && |m.components| == 3 && m.components[1] == "AUTH"
    ensures req.Shutdown? <==> m.components[0] == "COMM" && |m.components| == 2 && m.components[1] == "SHUTDOWN"
    ensures req.Auth? ==> req.supplied == m.components[2]
    ensures req.NotifyOut? || req.AddFilter? || req.ClearFilters? ==>
      m.components[0] == "NOTIFY" && state == Connected
    ensures req.VarGet? || req.VarSet? ==> m.components[0] == "VAR" && state == Connected
    ensures req.Log? <==> m.components[0] == "LOG" && state == Connected && |m.components| == 4
  {
    var cs := m.components;
    var n := |cs|;
    if cs[0] == "COMM" then
      if n == 3 && cs[1] == "AUTH" then Auth(cs[2])
      else if n == 2 && cs[1] == "SHUTDOWN" then Shutdown
      else Rejected
    else if state != Connected then Rejected
    else if cs[0] == "NOTIFY" then
      if n == 3 && cs[1] == "OUT" then NotifyOut(cs[2])
      else if n == 4 && cs[1] == "ADD_FILTER" then AddFilter(cs[2], cs[3])
      else if n == 2 && cs[1] == "CLEAR_FILTERS" then ClearFilters
      else Rejected
    else if cs[0] == "VAR" then
      if n == 3 && cs[1] == "GET" then VarGet(cs[2])
      else if n == 4 && cs[1] == "SET" then VarSet(cs[2], cs[3])
      else Rejected
    else if cs[0] == "LOG" then
      if n == 4 then Log(cs[1], cs[2], cs[3]) else Rejected
    else Rejected
  }

  /** A COMM message means the same request whatever the client's state. */
  lemma CommIgnoresState(m: Message)
    requires |m.components| >= 1 && m.components[0] == "COMM"
    ensures Classify(Unauthenticated, m) == Classify(Connected, m)
  {
  }

  /** The result of handling one message. */
  datatype Outcome = Outcome(
    code: int,
    effects: seq<Effect>,
    state: ClientState,
    filters: seq<Filter>,
    cache: map<string, Var>)

  const NoPassword := "No password set! Refusing to authenticate clients!"
  const AuthFailure := "Authentication failure"

  function InvalidAccess(name: string): string {
    "Invalid variable access (" + name + ")"
  }

  function GetUnknown(name: string): string {
    "Get attempted on not-existent variable '" + name + "'"
  }

  function SetUnknown(name: string): string {
    "Set attempted on not-existent variable '" + name + "'"
  }

  function SetReadOnly(name: string): string {
    "Set attempted on read-only variable '" + name + "'"
  }

  /** The VAR VALUE reply to a GET: access mode, then the value as "%f" prints it. */
  function ValueReply(requestId: nat, v: Var, formatValue: real -> string): (m: Message)
    ensures m.requestId == requestId && |m.components| == 4
    ensures m.components[..2] == ["VAR", "VALUE"]
    ensures m.components[2] == (if v.readonly then "RO" else "RW")
    ensures m.components[3] == formatValue(v.value)
  {
    Message(requestId, ["VAR", "VALUE", if v.readonly then "RO" else "RW", formatValue(v.value)])
  }

  /**
   * What handling a request does, for the client on socket sock in the
   * given state, with the hub's configured password (None when the option
   * is unset); formatValue is printf("%f") and atof is atof().
   */
  function Respond(
    sock: int, requestId: nat, req: Request,
    state: ClientState, filters: seq<Filter>, cache: map<string, Var>,
    password: Option<string>, formatValue: real -> string, atof: string -> real): (o: Outcome)
    ensures o.code == 0 || o.code == -1
    ensures o.state == Connected ==> state == Connected || (req.Auth? && password == Some(req.supplied))
    ensures !(req.AddFilter? || req.ClearFilters?) ==> o.filters == filters
    ensures !req.VarSet? ==> o.cache == cache
  {
    match req
    case Auth(supplied) =>
      if password.None? then Outcome(-1, [HubLog(Logging.Error, NoPassword)], state, filters, cache)
      else if supplied == password.value then
        Outcome(0, [Send(sock, Message(requestId, ["COMM", "SUCCESS"]))], Connected, filters, cache)
      else
        Outcome(0, [Send(sock, Message(requestId, ["COMM", "FAILURE"]))] + Kick(sock, AuthFailure),
                state, filters, cache)
    case Shutdown => Outcome(0, Close(sock), state, filters, cache)
    case NotifyOut(body) =>
      Outcome(0, [Broadcast(Message(0, ["NOTIFY", "IN", body]))], state, filters, cache)
    case AddFilter(kindText, pattern) =>
      Outcome(0, [], state, filters + [Filter(Atoi(kindText) % 256, pattern)], cache)
    case ClearFilters => Outcome(0, [], state, [], cache)
    case VarGet(name) =>
      if name !in cache then
        Outcome(-1, [HubLog(Logging.Error, GetUnknown(name))] + Kick(sock, InvalidAccess(name)),
                state, filters, cache)
      else
        Outcome(0, [Send(sock, ValueReply(requestId, cache[name], formatValue))], state, filters, cache)
    case VarSet(name, valueText) =>
      var s := SetValue(cache, name, atof(valueText));
      if s.code == -1 then
        Outcome(-1, [HubLog(Logging.Error, SetUnknown(name))] + Kick(sock, InvalidAccess(name)),
                state, filters, s.cache)
      else if s.code == -2 then
        Outcome(-1, [HubLog(Logging.Error, SetReadOnly(name))] + Kick(sock, InvalidAccess(name)),
                state, filters, s.cache)
      else Outcome(0, [], state, filters, s.cache)
    case Log(app, levelText, text) =>
      Outcome(0, [LogWithName(app, ToShort(Atoi(levelText)), text)], state, filters, cache)
    case Rejected => Outcome(-1, [], state, filters, cache)
  }

  /** Hub_Process_process on a message, as one function of the state it reads. */
  function Handle(
    sock: int, m: Message,
    state: ClientState, filters: seq<Filter>, cache: map<string, Var>,
    password: Option<string>, formatValue: real -> string, atof: string -> real): Outcome
    requires |m.components| >= 1
  {
    Respond(sock, m.requestId, Classify(state, m), state, filters, cache, password, formatValue, atof)
  }

  /** An unauthenticated client gets nothing but COMM messages handled. */
  lemma UnauthenticatedOnlyComm(
    sock: int, m: Message, filters: seq<Filter>, cache: map<string, Var>,
    password: Option<string>, formatValue: real -> string, atof: string -> real)
    requires |m.components| >= 1 && m.components[0] != "COMM"
    ensures Handle(sock, m, Unauthenticated, filters, cache, password, formatValue, atof)
      == Outcome(-1, [], Unauthenticated, filters, cache)
  {
  }

  /**
   * AUTH with the configured password answers COMM SUCCESS under the
   * request's id and connects the client; with a wrong one it answers COMM
   * FAILURE and kicks, and the state stays what it was; with no password
   * configured it only logs an error.
   */
  lemma AuthOutcomes(
    sock: int, m: Message, state: ClientState, filters: seq<Filter>, cache: map<string, Var>,
    password: Option<string>, formatValue: real -> string, atof: string -> real)
    requires |m.components| == 3 && m.components[0] == "COMM" && m.components[1] == "AUTH"
    ensures var o := Handle(sock, m, state, filters, cache, password, formatValue, atof);
      (password.None? ==>
        o == Outcome(-1, [HubLog(Logging.Error, NoPassword)], state, filters, cache)) &&
      (password == Some(m.components[2]) ==>
        o == Outcome(0, [Send(sock, Message(m.requestId, ["COMM", "SUCCESS"]))], Connected, filters, cache)) &&
      (password.Some? && password.value != m.components[2] ==>
        o.code == 0 && o.state == state &&
        o.effects == [Send(sock, Message(m.requestId, ["COMM", "FAILURE"])), MarkClosed(sock),
                      Send(sock, Message(0, ["COMM", "KICKING", AuthFailure]))])
  {
  }

  /**
   * VAR GET replies with the variable's access mode and value under the
   * request's id; an unknown name is logged and the client kicked.
   */
  lemma VarGetOutcomes(
    sock: int, m: Message, filters: seq<Filter>, cache: map<string, Var>,
    password: Option<string>, formatValue: real -> string, atof: string -> real)
    requires |m.components| == 3 && m.components[0] == "VAR" && m.components[1] == "GET"
    ensures var name := m.components[2];
      var o := Handle(sock, m, Connected, filters, cache, password, formatValue, atof);
      o.cache == cache && o.state == Connected &&
      (name !in cache ==>
        o.code == -1 &&
        o.effects == [HubLog(Logging.Error, GetUnknown(name))] + Kick(sock, InvalidAccess(name))) &&
      (name in cache ==>
        o.code == 0 &&
        o.effects == [Send(sock, ValueReply(m.requestId, cache[name], formatValue))])
  {
  }

  /**
   * VAR SET of a writable variable stores the value silently; an unknown or
   * read-only name is logged, kicks the client and changes no variable.
   */
  lemma VarSetOutcomes(
    sock: int, m: Message, filters: seq<Filter>, cache: map<string, Var>,
    password: Option<string>, formatValue: real -> string, atof: string -> real)
    requires |m.components| == 4 && m.components[0] == "VAR" && m.components[1] == "SET"
    ensures var name := m.components[2];
      var o := Handle(sock, m, Connected, filters, cache, password, formatValue, atof);
      (name in cache && !cache[name].readonly ==>
        o.code == 0 && o.effects == [] && o.cache == cache[name := cache[name].(value := atof(m.components[3]))]) &&
      (name !in cache || cache[name].readonly ==>
        o.code == -1 && o.cache == cache && o.effects[1..] == Kick(sock, InvalidAccess(name)))
  {
  }

  /** A VAR message of any other shape is refused without a reply or a kick. */
  lemma VarOtherShapes(
    sock: int, m: Message, filters: seq<Filter>, cache: map<string, Var>,
    password: Option<string>, formatValue: real -> string, atof: string -> real)
    requires |m.components| >= 1 && m.components[0] == "VAR"
    requires !(|m.components| == 3 && m.components[1] == "GET")
    requires !(|m.components| == 4 && m.components[1] == "SET")
    ensures Handle(sock, m, Connected, filters, cache, password, formatValue, atof)
      == Outcome(-1, [], Connected, filters, cache)
  {
  }

  /**
   * COMM SHUTDOWN with exactly two components closes the client; a COMM
   * message that is neither that nor a three-component AUTH is refused.
   */
  lemma CommOutcomes(
    sock: int, m: Message, state: ClientState, filters: seq<Filter>, cache: map<string, Var>,
    password: Option<string>, formatValue: real -> string, atof: string -> real)
    requires |m.components| >= 1 && m.components[0] == "COMM"
    requires !(|m.components| == 3 && m.components[1] == "AUTH")
    ensures var o := Handle(sock, m, state, filters, cache, password, formatValue, atof);
      (|m.components| == 2 && m.components[1] == "SHUTDOWN" ==>
        o == Outcome(0, Close(sock), state, filters, cache)) &&
      (!(|m.components| == 2 && m.components[1] == "SHUTDOWN") ==>
        o == Outcome(-1, [], state, filters, cache))
  {
  }

  /**
   * NOTIFY OUT, ADD_FILTER and CLEAR_FILTERS need exactly 3, 4 and 2
   * components: OUT broadcasts NOTIFY IN with the body, ADD_FILTER appends
   * the filter with atoi of its type as a byte, CLEAR_FILTERS drops them
   * all, and any other shape is refused.
   */
  lemma NotifyOutcomes(
    sock: int, m: Message, filters: seq<Filter>, cache: map<string, Var>,
    password: Option<string>, formatValue: real -> string, atof: string -> real)
    requires |m.components| >= 1 && m.components[0] == "NOTIFY"
    ensures var o := Handle(sock, m, Connected, filters, cache, password, formatValue, atof);
      var cs := m.components;
      var out := |cs| == 3 && cs[1] == "OUT";
      var add := |cs| == 4 && cs[1] == "ADD_FILTER";
      var clear := |cs| == 2 && cs[1] == "CLEAR_FILTERS";
      (out ==> o == Outcome(0, [Broadcast(Message(0, ["NOTIFY", "IN", cs[2]]))], Connected, filters, cache)) &&
      (add ==> o == Outcome(0, [], Connected, filters + [Filter(Atoi(cs[2]) % 256, cs[3])], cache)) &&
      (clear ==> o == Outcome(0, [], Connected, [], cache)) &&
      (!out && !add && !clear ==> o == Outcome(-1, [], Connected, filters, cache))
  {
  }

  /**
   * LOG with exactly four components logs the text under the sender's name
   * at atoi of the level, read as a short; any other count is refused.
   */
  lemma LogOutcomes(
    sock: int, m: Message, filters: seq<Filter>, cache: map<string, Var>,
    password: Option<string>, formatValue: real -> string, atof: string -> real)
    requires |m.components| >= 1 && m.components[0] == "LOG"
    ensures var o := Handle(sock, m, Connected, filters, cache, password, formatValue, atof);
      var cs := m.components;
      (|cs| == 4 ==> o == Outcome(0, [LogWithName(cs[1], ToShort(Atoi(cs[2])), cs[3])], Connected, filters, cache)) &&
      (|cs| != 4 ==> o == Outcome(-1, [], Connected, filters, cache))
  {
  }

  /** Handling one message for a client and the hub's variable store. */
  method Process(
    client: Client, store: VarStore, password: Option<string>, m: Message,
    formatValue: real -> string, atof: string -> real) returns (r: int, effects: seq<Effect>)
    requires |m.components| >= 1 && store.Valid()
    modifies client, store
    ensures store.Valid()
    ensures Outcome(r, effects, client.state, client.filters, store.cache) ==
      Handle(client.sock, m, old(client.state), old(client.filters), old(store.cache), password, formatValue, atof)
  {
    var req := Classify(client.state, m);
    match req
    case Auth(supplied) =>
      if password.None? {
        return -1, [HubLog(Logging.Error, NoPassword)];
      }
      if supplied == password.value {
        effects := [Send(client.sock, Message(m.requestId, ["COMM", "SUCCESS"]))];
        client.state := Connected;
      } else {
        effects := [Send(client.sock, Message(m.requestId, ["COMM", "FAILURE"]))] + Kick(client.sock, AuthFailure);
      }
      r := 0;
    case Shutdown =>
      return 0, Close(client.sock);
    case NotifyOut(body) =>
      return 0, [Broadcast(Message(0, ["NOTIFY", "IN", body]))];
    case AddFilter(kindText, pattern) =>
      client.AddFilter(Atoi(kindText), pattern);
      return 0, [];
    case ClearFilters =>
      client.ClearFilters();
      return 0, [];
    case VarGet(name) =>
      var v := store.Get(name);
      if v.None? {
        return -1, [HubLog(Logging.Error, GetUnknown(name))] + Kick(client.sock, InvalidAccess(name));
      }
      return 0, [Send(client.sock, ValueReply(m.requestId, v.value, formatValue))];
    case VarSet(name, valueText) =>
      var n := store.Set(name, atof(valueText));
      if n == -1 {
        effects := [HubLog(Logging.Error, SetUnknown(name))];
      } else if n == -2 {
        effects := [HubLog(Logging.Error, SetReadOnly(name))];
      } else {
        return 0, [];
      }
      return -1, effects + Kick(client.sock, InvalidAccess(name));
    case Log(app, levelText, text) =>
      return 0, [LogWithName(app, ToShort(Atoi(levelText)), text)];
    case Rejected =>
      return -1, [];
  }
}
