/**
 * Client-side notifications: the filters an application registers, the
 * default policy used when it has none, the queue of incoming notification
 * bodies, and the "action param" body format of outgoing notifications.
 */
module Notify {
  import opened Wrappers
  import opened Comm
  import opened Util

  /** The whole message must equal the filter text. */
  const FilterMatch: nat := 1
  /** The message's action (the text before its first space) must equal the filter text. */
  const FilterAction: nat := 2
  /** The message must start with the filter text. */
  const FilterPrefix: nat := 3

  const PolicyAccept := true
  const PolicyDrop := false

  /** The filter array grows by this many slots. */
  const FilterIncrement: nat := 5

  /** A registered filter: its type byte and its text. */
  datatype Filter = Filter(kind: nat, text: string)

  /** Whether one filter lets msg through, as the check's switch decides. */
  predicate Accepts(f: Filter, msg: string) {
    if f.kind == FilterMatch then msg == f.text
    else if f.kind == FilterAction then |msg| > |f.text| && f.text <= msg && msg[|f.text|] == ' '
    else if f.kind == FilterPrefix then f.text <= msg
    else false
  }

  /**
   * Notify_check_filter's verdict: the default policy when no filter is
   * registered, otherwise whether at least one filter accepts msg.
   */
  predicate Passes(filters: seq<Filter>, policy: bool, msg: string) {
    if filters == [] then policy
    else exists i :: 0 <= i < |filters| && Accepts(filters[i], msg)
  }

  /** Slots the C has allocated for n filters: 5 at first, 5 more each time n reaches a multiple of 5. */
  function Space(n: nat): (s: nat)
    ensures n < s || (n == s && n % FilterIncrement == 0)
  {
    if n == 0 then FilterIncrement else FilterIncrement * ((n + FilterIncrement - 1) / FilterIncrement)
  }

  /** The component body "action param" that Notify_send puts in a NOTIFY OUT message. */
  function SendBody(action: string, param: string): (body: string)
    ensures |body| == |action| + 1 + |param|
  {
    action + " " + param
  }

  /** Notify_send: the message handed to Comm_sendMessage. */
  function SendMessage(action: string, param: string): (m: Message)
    ensures m.requestId == 0 && |m.components| == 3
    ensures m.components[..2] == ["NOTIFY", "OUT"]
    ensures m.components[2] == SendBody(action, param)
  {
    Message(0, ["NOTIFY", "OUT", SendBody(action, param)])
  }

  /** What Notify_get hands back. */
  datatype Notification =
    | Got(action: string, param: string)
      /**
       * The body holds no space: the C scan runs past its NUL and reads
       * beyond the buffer.
       */
    | NoSpace
      /** The queue ran dry: the C blocks until a new message arrives. */
    | WouldBlock

  /** Notify_get's split of a body at its first space. */
  function SplitBody(msg: string): (r: Notification)
    ensures r.Got? ==> ' ' !in r.action && msg == r.action + " " + r.param
    ensures r.NoSpace? <==> ' ' !in msg
    ensures !r.WouldBlock?
  {
    var k := IndexOf(msg, ' ');
    if k == |msg| then NoSpace else Got(msg[..k], msg[k + 1..])
  }

  /** Splitting inverts Notify_send's body format for an action without spaces. */
  lemma SplitSendBody(action: string, param: string)
    requires ' ' !in action
    ensures SplitBody(SendBody(action, param)) == Got(action, param)
  {
    var body := SendBody(action, param);
    assert body[|action|] == ' ';
    assert body[..|action|] == action;
    assert IndexOf(body, ' ') == |action|;
    assert body[|action| + 1..] == param;
  }

  /** A notification sent with action a passes an ACTION filter on a, whatever its parameter. */
  lemma ActionFilterAcceptsSent(action: string, param: string)
    ensures Accepts(Filter(FilterAction, action), SendBody(action, param))
  {
    var body := SendBody(action, param);
    assert body[..|action|] == action;
    assert body[|action|] == ' ';
  }

  /** An ACTION filter is a stricter PREFIX filter: what it accepts, the PREFIX filter on the same text accepts. */
  lemma ActionImpliesPrefix(text: string, msg: string)
    ensures Accepts(Filter(FilterAction, text), msg) ==> Accepts(Filter(FilterPrefix, text), msg)
  {
  }

  /** Index of the first queued body that passes, if any. */
  function FirstPassing(queue: seq<string>, filters: seq<Filter>, policy: bool): (k: nat)
    ensures k <= |queue|
    ensures forall j :: 0 <= j < k ==> !Passes(filters, policy, queue[j])
    ensures k < |queue| ==> Passes(filters, policy, queue[k])
  {
    if queue == [] then 0
    else if Passes(filters, policy, queue[0]) then 0
    else 1 + FirstPassing(queue[1..], filters, policy)
  }

  /** The notification component's static state. */
  class Notifier {
    var initialized: bool
    var filters: seq<Filter>
    /** Slots allocated for filters; 0 while the array is NULL. */
    var filterSpace: nat
    var defaultPolicy: bool
    var queue: seq<string>

    /** Every registered filter sits in an allocated slot. */
    ghost predicate Valid()
      reads this
    {
      filterSpace == 0 ==> filters == []
    }

    ghost predicate Allocated()
      reads this
    {
      filterSpace > 0 ==> filterSpace == Space(|filters|)
    }

    /** The state before Notify_init: no filters, policy DROP, not initialized. */
    constructor()
      ensures Valid() && Allocated()
      ensures !initialized && filters == [] && filterSpace == 0
      ensures defaultPolicy == PolicyDrop && queue == []
    {
      initialized := false;
      filters := [];
      filterSpace := 0;
      defaultPolicy := PolicyDrop;
      queue := [];
    }

    /** Notify_init: allocate 5 filter slots and an empty queue. */
    method Init()
      requires filters == []
      modifies this
      ensures initialized && filters == [] && filterSpace == FilterIncrement && queue == []
      ensures defaultPolicy == old(defaultPolicy)
      ensures Valid() && Allocated()
    {
      filterSpace := FilterIncrement;
      queue := [];
      initialized := true;
    }

    /** Notify_setPolicy. */
    method SetPolicy(policy: bool)
      modifies this
      ensures defaultPolicy == policy
      ensures initialized == old(initialized) && filters == old(filters)
      ensures filterSpace == old(filterSpace) && queue == old(queue)
    {
      defaultPolicy := policy;
    }

    /**
     * Notify_filter: None drops every filter and reallocates 5 slots; a
     * filter text appends one filter, after growing the array by 5 slots when
     * the count is a non-zero multiple of 5. Appending needs the array to
     * exist (the C writes through it).
     */
    method AddFilter(filterType: int, filter: Option<string>)
      requires Allocated()
      requires filter.Some? ==> filterSpace > 0
      modifies this
      ensures filter.None? ==> filters == [] && filterSpace == FilterIncrement
      ensures filter.Some? ==>
        filters == old(filters) + [Filter(filterType % 256, filter.value)] && |filters| <= filterSpace
      ensures Allocated()
      ensures initialized == old(initialized) && defaultPolicy == old(defaultPolicy) && queue == old(queue)
    {
      if filter.None? {
        filters := [];
        filterSpace := FilterIncrement;
        return;
      }
      var n := |filters|;
      if n != 0 && n % FilterIncrement == 0 {
        filterSpace := n + FilterIncrement;
      }
      // The new filter goes to index n, which is inside the array.
      assert n < filterSpace;
      filters := filters + [Filter(filterType % 256, filter.value)];
      SpaceAfterAppend(n);
    }

    /**
     * Notify_check_filter: the default policy when there are no filters,
     * otherwise true as soon as one filter accepts msg and false when none
     * does.
     */
    method CheckFilter(msg: string) returns (r: bool)
      ensures r == Passes(filters, defaultPolicy, msg)
    {
      if |filters| == 0 {
        return defaultPolicy;
      }
      var i := 0;
      while i < |filters|
        invariant 0 <= i <= |filters|
        invariant forall j :: 0 <= j < i ==> !Accepts(filters[j], msg)
      {
        var f := filters[i];
        if f.kind == FilterMatch {
          if f.text == msg {
            return true;
          }
        } else if f.kind == FilterAction {
          if |msg| > |f.text| && msg[|f.text|] == ' ' {
            var same := SamePrefix(msg, f.text);
            if same {
              return true;
            }
          }
        } else if f.kind == FilterPrefix {
          if |f.text| <= |msg| {
            var same := SamePrefix(msg, f.text);
            if same {
              return true;
            }
          }
        }
        i := i + 1;
      }
      return false;
    }

    /**
     * Notify_inputMessage: queue a copy of the body (component 2) when the
     * component is initialised and the body passes the filters.
     */
    method InputMessage(m: Message)
      requires |m.components| > 2
      modifies this
      ensures initialized && Passes(filters, defaultPolicy, m.components[2]) ==>
        queue == old(queue) + [m.components[2]]
      ensures !(initialized && Passes(filters, defaultPolicy, m.components[2])) ==>
        queue == old(queue)
      ensures initialized == old(initialized) && filters == old(filters)
      ensures filterSpace == old(filterSpace) && defaultPolicy == old(defaultPolicy)
    {
      var msg := m.components[2];
      if initialized {
        var pass := CheckFilter(msg);
        if pass {
          queue := queue + [msg];
        }
      }
    }

    /**
     * Notify_get without blocking: pop bodies, dropping those that no longer
     * pass the filters, and split the first one that does at its first space.
     */
    method Get() returns (r: Notification)
      modifies this
      ensures var k := FirstPassing(old(queue), filters, defaultPolicy);
        (k == |old(queue)| ==> r == WouldBlock && queue == []) &&
        (k < |old(queue)| ==> r == SplitBody(old(queue)[k]) && queue == old(queue)[k + 1..])
      ensures initialized == old(initialized) && filters == old(filters)
      ensures filterSpace == old(filterSpace) && defaultPolicy == old(defaultPolicy)
    {
      ghost var q0 := queue;
      ghost var k := 0;
      while true
        invariant k <= |q0| && queue == q0[k..]
        invariant forall j :: 0 <= j < k ==> !Passes(filters, defaultPolicy, q0[j])
        invariant filters == old(filters) && defaultPolicy == old(defaultPolicy)
        invariant initialized == old(initialized) && filterSpace == old(filterSpace)
        decreases |queue|
      {
        if queue == [] {
          assert k == |q0|;
          FirstPassingIsFirst(q0, filters, defaultPolicy, k);
          return WouldBlock;
        }
        var msg := queue[0];
        queue := queue[1..];
        k := k + 1;
        var pass := CheckFilter(msg);
        if pass {
          FirstPassingIsFirst(q0, filters, defaultPolicy, k - 1);
          r := SplitMessage(msg);
          return;
        }
      }
    }
  }

  /** Appending keeps the allocation rule: the slot count stays Space of the new count. */
  lemma SpaceAfterAppend(n: nat)
    ensures Space(n + 1) == (if n != 0 && n % FilterIncrement == 0 then n + FilterIncrement else Space(n))
  {
  }

  /** A non-passing run followed by a passing body (or the end) is what FirstPassing finds. */
  lemma {:induction false} FirstPassingIsFirst(queue: seq<string>, filters: seq<Filter>, policy: bool, k: nat)
    requires k <= |queue|
    requires forall j :: 0 <= j < k ==> !Passes(filters, policy, queue[j])
    requires k < |queue| ==> Passes(filters, policy, queue[k])
    ensures FirstPassing(queue, filters, policy) == k
    decreases k
  {
    if k > 0 {
      FirstPassingIsFirst(queue[1..], filters, policy, k - 1);
    }
  }

  /** The character loop of the ACTION and PREFIX cases: do the first |text| characters agree? */
  method SamePrefix(msg: string, text: string) returns (same: bool)
    requires |text| <= |msg|
    ensures same <==> text <= msg
  {
    var j := 0;
    while j < |text|
      invariant 0 <= j <= |text|
      invariant text[..j] == msg[..j]
    {
      if msg[j] != text[j] {
        return false;
      }
      j := j + 1;
    }
    assert text == text[..j];
    return true;
  }

  /** The split loop of Notify_get: find the first space and cut there. */
  method SplitMessage(msg: string) returns (r: Notification)
    ensures r == SplitBody(msg)
  {
    var k := 0;
    while k < |msg| && msg[k] != ' '
      invariant 0 <= k <= |msg| && ' ' !in msg[..k]
    {
      k := k + 1;
    }
    if k == |msg| {
      return NoSpace;
    }
    r := Got(msg[..k], msg[k + 1..]);
  }
}
