/**
 * A client session as the hub keeps it: its socket, its authentication
 * state and the notification filters it registered, with the hub's own
 * filter check and the kick/close sequences.
 */
module HubClient {
  import opened Comm
  import opened HubNet
  import opened Notify

  datatype ClientState = Unauthenticated | Connected

  /**
   * A filter that, when it matches, turns the running verdict to true: MATCH
   * on an equal body, ACTION on a body starting with the pattern (strncmp
   * over the pattern's length).
   */
  predicate Sets(f: Filter, body: string) {
    (f.kind == FilterMatch && body == f.text) || (f.kind == FilterAction && f.text <= body)
  }

  /**
   * A filter that, when it matches, turns the running verdict to false: a
   * PREFIX filter whose pattern's length indexes a space in the body.
   */
  predicate Resets(f: Filter, body: string) {
    f.kind == FilterPrefix && |body| > |f.text| && body[|f.text|] == ' '
  }

  /** The verdict after one more filter; filters of any other type leave it alone. */
  function Step(r: bool, f: Filter, body: string): bool {
    if Sets(f, body) then true else if Resets(f, body) then false else r
  }

  /** Hub_Client_checkFilters' verdict: start from false and apply the filters in order. */
  function Verdict(filters: seq<Filter>, body: string): bool {
    if filters == [] then false
    else Step(Verdict(filters[..|filters| - 1], body), filters[|filters| - 1], body)
  }

  /** filters[i] sets the verdict and no later filter resets it. */
  predicate Decisive(filters: seq<Filter>, body: string, i: int) {
    0 <= i < |filters| && Sets(filters[i], body) &&
    forall j :: i < j < |filters| ==> !Resets(filters[j], body)
  }

  /** A body passes exactly when some filter sets the verdict and no later filter resets it. */
  lemma VerdictIffDecisive(filters: seq<Filter>, body: string)
    ensures Verdict(filters, body) <==> exists i :: Decisive(filters, body, i)
  {
    if Verdict(filters, body) {
      VerdictHasDecisive(filters, body);
    } else {
      NoVerdictNoDecisive(filters, body);
    }
  }

  lemma {:induction false} VerdictHasDecisive(filters: seq<Filter>, body: string)
    requires Verdict(filters, body)
    ensures exists i :: Decisive(filters, body, i)
    decreases |filters|
  {
    var n := |filters| - 1;
    if Sets(filters[n], body) {
      assert Decisive(filters, body, n);
    } else {
      var init := filters[..n];
      VerdictHasDecisive(init, body);
      var i :| Decisive(init, body, i);
      assert Decisive(filters, body, i);
    }
  }

  lemma {:induction false} NoVerdictNoDecisive(filters: seq<Filter>, body: string)
    requires !Verdict(filters, body)
    ensures forall i :: !Decisive(filters, body, i)
    decreases |filters|
  {
    if filters != [] {
      var n := |filters| - 1;
      var init := filters[..n];
      if !Resets(filters[n], body) {
        NoVerdictNoDecisive(init, body);
        forall i | 0 <= i < n
          ensures !Decisive(filters, body, i)
        {
          assert !Decisive(init, body, i);
        }
      }
    }
  }

  /** A client whose filters are all PREFIX filters receives no notification. */
  lemma {:induction false} PrefixFiltersNeverPass(filters: seq<Filter>, body: string)
    requires forall i :: 0 <= i < |filters| ==> filters[i].kind == FilterPrefix
    ensures !Verdict(filters, body)
    decreases |filters|
  {
    if filters != [] {
      PrefixFiltersNeverPass(filters[..|filters| - 1], body);
    }
  }

  /**
   * The hub's ACTION filter is weaker than the client library's: every body
   * the library's ACTION filter accepts, the hub's accepts too.
   */
  lemma HubActionWeakerThanLibrary(f: Filter, body: string)
    requires f.kind == FilterAction
    ensures Accepts(f, body) ==> Sets(f, body)
  {
  }

  /**
   * The PREFIX case of Hub_Client_checkFilters: walk the body; at the index
   * where the pattern ends, a space resets the verdict and anything else
   * stops the walk. Past the pattern's end the C reads beyond the filter's
   * buffer; whatever it finds there cannot change the verdict again, so the
   * model walks on without looking.
   */
  method PrefixWalk(body: string, pattern: string, r: bool) returns (r': bool)
    ensures r' == Step(r, Filter(FilterPrefix, pattern), body)
  {
    r' := r;
    var j := 0;
    while j < |body|
      invariant 0 <= j <= |body|
      invariant r' == (if j > |pattern| && body[|pattern|] == ' ' then false else r)
    {
      if j == |pattern| {
        if body[j] == ' ' {
          r' := false;
        } else {
          break;
        }
      }
      j := j + 1;
    }
  }

  /**
   * Hub_Client_kick for the client on socket sock: mark it closed, then
   * send it COMM KICKING with the reason.
   */
  function Kick(sock: int, reason: string): (effects: seq<Effect>)
    ensures |effects| == 2 && effects[0] == MarkClosed(sock)
    ensures effects[1].Send? && effects[1].sock == sock
    ensures effects[1].message == Message(0, ["COMM", "KICKING", reason])
  {
    [MarkClosed(sock), Send(sock, Message(0, ["COMM", "KICKING", reason]))]
  }

  /** Hub_Client_close for the client on socket sock: send COMM CLOSING, then mark it closed. */
  function Close(sock: int): (effects: seq<Effect>)
    ensures |effects| == 2 && effects[1] == MarkClosed(sock)
    ensures effects[0] == Send(sock, Message(0, ["COMM", "CLOSING"]))
  {
    [Send(sock, Message(0, ["COMM", "CLOSING"])), MarkClosed(sock)]
  }

  class Client {
    const sock: int
    var state: ClientState
    /** filters[i] is the type byte and pattern of the i-th registered filter; no filters means a NULL array. */
    var filters: seq<Filter>

    /** Hub_Client_new: unauthenticated, no filters. */
    constructor(sock: int)
      ensures this.sock == sock && state == Unauthenticated && filters == []
    {
      this.sock := sock;
      state := Unauthenticated;
      filters := [];
    }

    /**
     * Hub_Client_addFilter: one more filter at index filters_n, with the
     * type stored as an unsigned byte.
     */
    method AddFilter(kind: int, pattern: string)
      modifies this
      ensures filters == old(filters) + [Filter(kind % 256, pattern)]
      ensures state == old(state)
    {
      filters := filters + [Filter(kind % 256, pattern)];
    }

    /** Hub_Client_clearFilters: drop every filter; nothing to do when there are none. */
    method ClearFilters()
      modifies this
      ensures filters == []
      ensures state == old(state)
    {
      if filters == [] {
        return;
      }
      filters := [];
    }

    /** Hub_Client_checkFilters on the body (component 2) of a NOTIFY message. */
    method CheckFilters(m: Message) returns (r: bool)
      requires |m.components| > 2 && m.components[0] == "NOTIFY"
      ensures r == Verdict(filters, m.components[2])
    {
      var body := m.components[2];
      r := false;
      var i := 0;
      while i < |filters|
        invariant 0 <= i <= |filters|
        invariant r == Verdict(filters[..i], body)
      {
        var f := filters[i];
        assert filters[..i + 1][..i] == filters[..i];
        if f.kind == FilterMatch {
          if body == f.text {
            r := true;
          }
        } else if f.kind == FilterPrefix {
          r := PrefixWalk(body, f.text, r);
        } else if f.kind == FilterAction {
          if f.text <= body {
            r := true;
          }
        }
        i := i + 1;
      }
      assert filters[..i] == filters;
    }
  }
}
