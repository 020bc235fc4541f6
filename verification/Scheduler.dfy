/** The action scheduler of idf.py: recursive execution of dependencies over a set of completed
    actions, for any table of actions without cycles. */
module Scheduler {
  type Action = string

  /** What an action does: call its function, or stand for another action. */
  datatype Body = Function | Alias(target: Action)

  datatype Entry = Entry(body: Body, deps: seq<Action>, order: seq<Action>)

  type Table = map<Action, Entry>

  /** The dependencies, order-only dependencies and alias target of `e` rank below `r`. */
  ghost predicate Descends(t: Table, rank: map<Action, nat>, e: Entry, r: nat)
  {
    && (forall d | d in e.deps :: d in t && d in rank && rank[d] < r)
    && (forall d | d in e.order && d in t :: d in rank && rank[d] < r)
    && (e.body.Alias? ==> e.body.target in t && e.body.target in rank && rank[e.body.target] < r)
  }

  /** Every edge of the table leads to a lower rank, so there is no cycle. */
  ghost predicate Ranked(t: Table, rank: map<Action, nat>)
  {
    t.Keys <= rank.Keys && forall a | a in t :: Descends(t, rank, t[a], rank[a])
  }

  /** A dependency, order-only dependency or alias edge from `a` to `d`. */
  predicate Edge(t: Table, a: Action, d: Action)
  {
    a in t && (d in t[a].deps || d in t[a].order || t[a].body == Alias(d))
  }

  /** No cycle: every non-empty set of actions has one without an edge into the set; and what
      must be looked up is in the table. */
  ghost predicate Acyclic(t: Table)
  {
    && (forall s: set<Action> | s <= t.Keys && s != {} :: exists a :: a in s && forall d | d in s :: !Edge(t, a, d))
    && (forall a, d | a in t && (d in t[a].deps || t[a].body == Alias(d)) :: d in t)
  }

  /** Ranks for the actions placed so far, each below `|placed|`. */
  ghost predicate RankedOn(t: Table, rank: map<Action, nat>, placed: set<Action>)
  {
    && placed <= t.Keys && rank.Keys == placed
    && (forall a | a in placed :: rank[a] < |placed|)
    && (forall a, d | a in placed && Edge(t, a, d) && d in t :: d in placed && rank[d] < rank[a])
  }

  lemma PlaceOne(t: Table, rank: map<Action, nat>, placed: set<Action>, a: Action)
    requires RankedOn(t, rank, placed) && a in t && a !in placed
    requires forall d | d in t.Keys - placed :: !Edge(t, a, d)
    ensures RankedOn(t, rank[a := |placed|], placed + {a})
  {
    hide Edge;
    var rank', placed' := rank[a := |placed|], placed + {a};
    assert |placed'| == |placed| + 1;
    forall b, d | b in placed' && Edge(t, b, d) && d in t ensures d in placed' && rank'[d] < rank'[b] {
      assert b == a ==> d !in t.Keys - placed;
    }
  }

  lemma AllPlaced(t: Table, rank: map<Action, nat>)
    requires Acyclic(t) && RankedOn(t, rank, t.Keys)
    ensures Ranked(t, rank)
  {
    forall a | a in t ensures Descends(t, rank, t[a], rank[a]) {
      assert forall d | d in t[a].deps || d in t[a].order || t[a].body == Alias(d) :: Edge(t, a, d);
    }
  }

  lemma FreeAction(t: Table, s: set<Action>) returns (a: Action)
    requires Acyclic(t) && s <= t.Keys && s != {}
    ensures a in s && forall d | d in s :: !Edge(t, a, d)
  {
    hide Edge;
    a :| a in s && forall d | d in s :: !Edge(t, a, d);
  }

  /** A table without cycles can be ranked. */
  lemma {:induction false} AcyclicIsRanked(t: Table, rank: map<Action, nat>, placed: set<Action>)
    returns (full: map<Action, nat>)
    requires Acyclic(t) && RankedOn(t, rank, placed)
    ensures Ranked(t, full)
    decreases |t.Keys - placed|
  {
    hide Edge, Acyclic;
    if placed == t.Keys {
      AllPlaced(t, rank);
      full := rank;
    } else {
      var rest := t.Keys - placed;
      assert placed + rest == t.Keys;
      var a := FreeAction(t, rest);
      PlaceOne(t, rank, placed, a);
      assert t.Keys - (placed + {a}) == rest - {a};
      full := AcyclicIsRanked(t, rank[a := |placed|], placed + {a});
    }
  }

  lemma {:induction false} LowestRank(s: set<Action>, rank: map<Action, nat>) returns (a: Action)
    requires s != {} && s <= rank.Keys
    ensures a in s && forall d | d in s :: rank[a] <= rank[d]
    decreases |s|
  {
    var b :| b in s;
    var rest := s - {b};
    assert s == rest + {b};
    if rest == {} {
      a := b;
    } else {
      a := LowestRank(rest, rank);
      if rank[b] < rank[a] {
        a := b;
      }
    }
  }

  /** Conversely, a ranked table has no cycles. */
  lemma RankedIsAcyclic(t: Table, rank: map<Action, nat>)
    requires Ranked(t, rank)
    ensures Acyclic(t)
  {
    forall s: set<Action> | s <= t.Keys && s != {} ensures exists a :: a in s && forall d | d in s :: !Edge(t, a, d) {
      var a := LowestRank(s, rank);
      assert Descends(t, rank, t[a], rank[a]);
      assert a in s && forall d | d in s :: !Edge(t, a, d);
    }
    forall a, d | a in t && (d in t[a].deps || t[a].body == Alias(d)) ensures d in t {
      assert Descends(t, rank, t[a], rank[a]);
    }
  }

  /** The function-backed action that `a` stands for. */
  ghost function Target(t: Table, rank: map<Action, nat>, a: Action): Action
    requires Ranked(t, rank) && a in t
    decreases rank[a]
  {
    match t[a].body
    case Function => a
    case Alias(b) => Target(t, rank, b)
  }

  /** `a` may run after `before`: what it depends on, and what was requested of what it must
      follow, has run. */
  ghost predicate Ready(t: Table, rank: map<Action, nat>, requested: set<Action>, a: Action, before: seq<Action>)
    requires Ranked(t, rank) && requested <= t.Keys && a in t
  {
    && (forall d | d in t[a].deps :: Target(t, rank, d) in before)
    && (forall d | d in t[a].order && d in requested :: Target(t, rank, d) in before)
  }

  ghost function Requested(actions: seq<Action>): set<Action> { set a | a in actions }

  /** A sequence of function calls is in order: no call twice, each one ready. */
  ghost predicate InOrder(t: Table, rank: map<Action, nat>, requested: set<Action>, log: seq<Action>)
    requires Ranked(t, rank) && requested <= t.Keys
  {
    forall p | 0 <= p < |log| ::
      log[p] in t && t[log[p]].body.Function? && log[p] !in log[..p] && Ready(t, rank, requested, log[p], log[..p])
  }

  /** A completed action has run, and so has what it depends on or had to follow. */
  ghost predicate Settled(t: Table, rank: map<Action, nat>, requested: set<Action>,
    completed: set<Action>, log: seq<Action>, a: Action)
    requires Ranked(t, rank)
  {
    && a in t && Target(t, rank, a) in log
    && (forall d | d in t[a].deps :: d in completed)
    && (forall d | d in t[a].order && d in requested :: d in completed)
  }

  ghost predicate Consistent(t: Table, rank: map<Action, nat>, requested: set<Action>,
    completed: set<Action>, log: seq<Action>)
  {
    && Ranked(t, rank) && requested <= t.Keys
    && InOrder(t, rank, requested, log)
    && (forall a | a in log :: a in completed)
    && (forall a | a in completed :: Settled(t, rank, requested, completed, log, a))
  }

  /** A set of actions that dependencies and aliases do not lead out of. */
  ghost predicate Closed(t: Table, needed: set<Action>)
  {
    forall a | a in needed && a in t ::
      (forall d | d in t[a].deps :: d in needed) && (t[a].body.Alias? ==> t[a].body.target in needed)
  }

  /** A set of actions that no dependency, alias or requested order-only dependency leads out of. */
  ghost predicate Follows(t: Table, requested: set<Action>, s: set<Action>)
  {
    forall a | a in s && a in t ::
      && (forall d | d in t[a].deps :: d in s)
      && (forall d | d in t[a].order && d in requested :: d in s)
      && (t[a].body.Alias? ==> t[a].body.target in s)
  }

  /** All that serving the actions `s` can lead to. */
  ghost function Behind(t: Table, requested: set<Action>, s: set<Action>): set<Action>
  {
    set a | a in t.Keys && forall n: set<Action> | s <= n && Follows(t, requested, n) :: a in n
  }

  lemma BehindFollows(t: Table, rank: map<Action, nat>, requested: set<Action>, s: set<Action>)
    requires Ranked(t, rank) && requested <= t.Keys && s <= t.Keys
    ensures s <= Behind(t, requested, s) && Follows(t, requested, Behind(t, requested, s))
  {
    var b := Behind(t, requested, s);
    forall a, d | a in b && a in t && LeadsTo(t, requested, a, d) ensures d in b {
      assert Descends(t, rank, t[a], rank[a]);
      forall n: set<Action> | s <= n && Follows(t, requested, n) ensures d in n {
        assert a in n;
      }
    }
    forall a | a in b && a in t
      ensures (forall d | d in t[a].deps :: d in b) && (forall d | d in t[a].order && d in requested :: d in b)
      ensures t[a].body.Alias? ==> t[a].body.target in b
    {
      assert forall d | d in t[a].deps :: LeadsTo(t, requested, a, d);
      assert forall d | d in t[a].order && d in requested :: LeadsTo(t, requested, a, d);
      assert t[a].body.Alias? ==> LeadsTo(t, requested, a, t[a].body.target);
    }
  }

  predicate LeadsTo(t: Table, requested: set<Action>, a: Action, d: Action)
  {
    a in t && (d in t[a].deps || (d in t[a].order && d in requested) || t[a].body == Alias(d))
  }

  lemma BehindGrows(t: Table, requested: set<Action>, s: set<Action>, more: set<Action>)
    requires s <= more
    ensures Behind(t, requested, s) <= Behind(t, requested, more)
  {}

  /** The first `k` calls serve the first `i` requests and nothing but them and what is behind
      them. */
  ghost predicate Serves(t: Table, rank: map<Action, nat>, requested: set<Action>,
    log: seq<Action>, actions: seq<Action>, i: nat, k: nat)
    requires Ranked(t, rank)
  {
    && i <= |actions| && k <= |log| && Requested(actions) <= t.Keys
    && (forall j | 0 <= j < i :: actions[j] in t && Target(t, rank, actions[j]) in log[..k])
    && (forall a | a in log[..k] :: a in Behind(t, requested, Requested(actions[..i])))
  }

  ghost predicate ServedFirst(t: Table, rank: map<Action, nat>, requested: set<Action>,
    log: seq<Action>, actions: seq<Action>, i: nat)
    requires Ranked(t, rank)
  {
    exists k: nat :: Serves(t, rank, requested, log, actions, i, k)
  }

  /** The requests are served from left to right. */
  ghost predicate InRequestOrder(t: Table, rank: map<Action, nat>, requested: set<Action>,
    log: seq<Action>, actions: seq<Action>, n: nat)
    requires Ranked(t, rank)
  {
    forall i | 0 <= i <= n :: ServedFirst(t, rank, requested, log, actions, i)
  }

  lemma ServesStill(t: Table, rank: map<Action, nat>, requested: set<Action>,
    log: seq<Action>, more: seq<Action>, actions: seq<Action>, n: nat)
    requires Ranked(t, rank) && log <= more && InRequestOrder(t, rank, requested, log, actions, n)
    ensures InRequestOrder(t, rank, requested, more, actions, n)
  {
    forall i | 0 <= i <= n ensures ServedFirst(t, rank, requested, more, actions, i) {
      assert ServedFirst(t, rank, requested, log, actions, i);
      var k: nat :| Serves(t, rank, requested, log, actions, i, k);
      assert more[..k] == log[..k];
      assert Serves(t, rank, requested, more, actions, i, k);
    }
  }

  /** A request that nothing before it leads to runs after everything requested before it. */
  lemma IndependentInOrder(t: Table, rank: map<Action, nat>, requested: set<Action>,
    log: seq<Action>, actions: seq<Action>, i: nat, p: nat)
    requires Ranked(t, rank) && InRequestOrder(t, rank, requested, log, actions, |actions|)
    requires i < |actions| && actions[i] in t && p < |log| && log[p] == Target(t, rank, actions[i])
    requires log[p] !in Behind(t, requested, Requested(actions[..i]))
    ensures forall j | 0 <= j < i :: actions[j] in t && Target(t, rank, actions[j]) in log[..p]
  {
    hide Behind;
    assert ServedFirst(t, rank, requested, log, actions, i);
    var k: nat :| Serves(t, rank, requested, log, actions, i, k);
    forall q | 0 <= q < k ensures log[q] in Behind(t, requested, Requested(actions[..i])) {
      assert log[..k][q] == log[q];
    }
    assert k <= p && log[..k] <= log[..p];
    forall j | 0 <= j < i ensures actions[j] in t && Target(t, rank, actions[j]) in log[..p] {
      assert Target(t, rank, actions[j]) in log[..k];
    }
  }

  /** Calling the function of an action whose prerequisites are complete. */
  lemma CallKeeps(t: Table, rank: map<Action, nat>, requested: set<Action>,
    completed: set<Action>, log: seq<Action>, a: Action)
    requires Consistent(t, rank, requested, completed, log) && a in t && a !in completed && t[a].body.Function?
    requires forall d | d in t[a].deps :: d in completed
    requires forall d | d in t[a].order && d in requested :: d in completed
    ensures Consistent(t, rank, requested, completed + {a}, log + [a])
  {
    var log' := log + [a];
    forall p | 0 <= p < |log'|
      ensures log'[p] in t && t[log'[p]].body.Function? && log'[p] !in log'[..p] &&
              Ready(t, rank, requested, log'[p], log'[..p])
    {
      if p < |log| {
        assert log'[..p] == log[..p];
      } else {
        assert log'[..p] == log;
        forall d | d in t[a].deps || (d in t[a].order && d in requested) ensures Target(t, rank, d) in log {
          assert Settled(t, rank, requested, completed, log, d);
        }
      }
    }
    forall b | b in completed + {a} ensures Settled(t, rank, requested, completed + {a}, log', b) {
      if b != a {
        assert Settled(t, rank, requested, completed, log, b);
      }
    }
  }

  /** Marking an alias whose target and prerequisites are complete. */
  lemma MarkKeeps(t: Table, rank: map<Action, nat>, requested: set<Action>,
    completed: set<Action>, log: seq<Action>, a: Action)
    requires Consistent(t, rank, requested, completed, log) && a in t
    requires a in completed || (t[a].body.Alias? && t[a].body.target in completed)
    requires forall d | d in t[a].deps :: d in completed
    requires forall d | d in t[a].order && d in requested :: d in completed
    ensures Consistent(t, rank, requested, completed + {a}, log)
  {
    forall b | b in completed + {a} ensures Settled(t, rank, requested, completed + {a}, log, b) {
      if b in completed {
        assert Settled(t, rank, requested, completed, log, b);
      } else {
        assert Settled(t, rank, requested, completed, log, t[a].body.target);
      }
    }
  }

  lemma RequestsInTable(t: Table, rank: map<Action, nat>, requested: set<Action>, completed: set<Action>, log: seq<Action>)
    requires Consistent(t, rank, requested, completed, log)
    ensures Ranked(t, rank) && requested <= t.Keys && forall a | a in requested :: a in t && a in rank
  {}

  lemma Outstanding(actions: seq<Action>, i: nat, completed: set<Action>)
    requires i <= |actions| && forall j | 0 <= j < i :: actions[j] in completed
    ensures forall a | a in actions :: a in completed || (i < |actions| && (a in actions[i + 1..] || a == actions[i]))
  {
    forall a | a in actions
      ensures a in completed || (i < |actions| && (a in actions[i + 1..] || a == actions[i]))
    {
      var j :| 0 <= j < |actions| && actions[j] == a;
      assert j > i ==> actions[i + 1..][j - i - 1] == a;
    }
  }

  lemma Served(t: Table, rank: map<Action, nat>, requested: set<Action>, completed: set<Action>, log: seq<Action>)
    requires Consistent(t, rank, requested, completed, log)
    ensures Ranked(t, rank) && requested <= t.Keys && InOrder(t, rank, requested, log)
    ensures forall a | a in log :: a in completed
    ensures forall a | a in completed :: a in t && Target(t, rank, a) in log
  {
    forall a | a in completed ensures a in t && Target(t, rank, a) in log {
      assert Settled(t, rank, requested, completed, log, a);
    }
  }

  lemma OneMoreRequest(t: Table, rank: map<Action, nat>, requested: set<Action>, completed: set<Action>, log: seq<Action>,
    actions: seq<Action>, i: nat)
    requires Consistent(t, rank, requested, completed, log) && i < |actions| && requested == Requested(actions)
    ensures var within := Behind(t, requested, Requested(actions[..i + 1]));
            && actions[i] in within && Follows(t, requested, within)
            && Behind(t, requested, Requested(actions[..i])) <= within
  {
    hide Consistent;
    RequestsInTable(t, rank, requested, completed, log);
    var s, more := Requested(actions[..i]), Requested(actions[..i + 1]);
    assert actions[..i + 1] == actions[..i] + [actions[i]];
    assert actions[i] in actions[..i + 1];
    assert forall a | a in actions[..i + 1] :: a in actions;
    Served(t, rank, requested, completed, log);
    BehindFollows(t, rank, requested, more);
    BehindGrows(t, requested, s, more);
  }

  lemma AllServed(t: Table, rank: map<Action, nat>, requested: set<Action>, completed: set<Action>, log: seq<Action>,
    actions: seq<Action>, i: nat)
    requires Consistent(t, rank, requested, completed, log) && i <= |actions| && requested == Requested(actions)
    requires forall j | 0 <= j < i :: actions[j] in completed
    requires completed <= Behind(t, requested, Requested(actions[..i]))
    ensures Ranked(t, rank) && Serves(t, rank, requested, log, actions, i, |log|)
  {
    hide Consistent, Behind, InOrder;
    Served(t, rank, requested, completed, log);
    assert log[..|log|] == log;
  }

  /** With `i` requests complete the whole log so far serves them. */
  lemma FirstServed(t: Table, rank: map<Action, nat>, requested: set<Action>, completed: set<Action>, log: seq<Action>,
    actions: seq<Action>, i: nat)
    requires Consistent(t, rank, requested, completed, log) && i <= |actions| && requested == Requested(actions)
    requires forall j | 0 <= j < i :: actions[j] in completed
    requires completed <= Behind(t, requested, Requested(actions[..i]))
    requires i == 0 || InRequestOrder(t, rank, requested, log, actions, i - 1)
    ensures InRequestOrder(t, rank, requested, log, actions, i)
  {
    hide Behind, Serves, Ranked, Requested, Consistent;
    AllServed(t, rank, requested, completed, log, actions, i);
    assert ServedFirst(t, rank, requested, log, actions, i);
  }

  /** One invocation of the tool: the completed actions and the functions called so far. */
  class Tool {
    const table: Table
    ghost const rank: map<Action, nat>
    ghost const requested: set<Action>
    ghost const needed: set<Action>
    var completed: set<Action>
    var log: seq<Action>

    constructor (table: Table, ghost rank: map<Action, nat>, ghost requested: set<Action>, ghost needed: set<Action>)
      requires Ranked(table, rank) && requested <= table.Keys && requested <= needed && Closed(table, needed)
      ensures Valid() && log == [] && completed == {}
      ensures this.table == table && this.rank == rank && this.requested == requested && this.needed == needed
    {
      this.table, this.rank, this.requested, this.needed := table, rank, requested, needed;
      completed, log := {}, [];
    }

    ghost predicate Valid()
      reads this
    {
      && Consistent(table, rank, requested, completed, log)
      && completed <= needed && requested <= needed && Closed(table, needed)
    }

    /** `execute_action`; `root` is the requested action being served. */
    method ExecuteAction(action: Action, remaining: seq<Action>, ghost root: Action, ghost within: set<Action>)
      requires action in within && Follows(table, requested, within)
      requires Valid() && action in table && action in needed && root in table && rank[action] <= rank[root]
      requires forall r | r in remaining :: r in requested
      requires forall r | r in requested :: r in completed || r in remaining || r == root
      modifies this`completed, this`log
      ensures Valid() && action in completed && old(completed) <= completed && old(log) <= log
      ensures completed <= old(completed) + within
      decreases rank[action]
    {
      hide Consistent, Closed;
      var entry := table[action];
      for i := 0 to |entry.deps|
        invariant Valid() && old(completed) <= completed <= old(completed) + within && old(log) <= log
        invariant forall j | 0 <= j < i :: entry.deps[j] in completed
      {
        if entry.deps[i] !in completed {
          EdgeDescends(table, rank, requested, needed, completed, log, action, entry.deps[i]);
          ExecuteAction(entry.deps[i], remaining, root, within);
        }
      }
      for i := 0 to |entry.order|
        invariant Valid() && old(completed) <= completed <= old(completed) + within && old(log) <= log
        invariant forall d | d in entry.deps :: d in completed
        invariant forall j | 0 <= j < i :: entry.order[j] in requested ==> entry.order[j] in completed
      {
        var d := entry.order[i];
        if d in requested {
          EdgeDescends(table, rank, requested, needed, completed, log, action, d);
        }
        if d in remaining && d !in completed {
          ExecuteAction(d, remaining, root, within);
        }
      }
      if action in completed {
      } else if entry.body.Alias? {
        EdgeDescends(table, rank, requested, needed, completed, log, action, entry.body.target);
        ExecuteAction(entry.body.target, remaining, root, within);
      } else {
        CallKeeps(table, rank, requested, completed, log, action);
        log := log + [action];
        completed := completed + {action};
        return;
      }
      MarkKeeps(table, rank, requested, completed, log, action);
      completed := completed + {action};
    }

    /** The driving loop of `main` over the requested actions. */
    method Run(actions: seq<Action>)
      requires Valid() && log == [] && completed == {}
      requires requested == Requested(actions)
      modifies this`completed, this`log
      ensures InOrder(table, rank, requested, log)
      ensures InRequestOrder(table, rank, requested, log, actions, |actions|)
      ensures forall a | a in actions :: a in table && Target(table, rank, a) in log
      ensures forall a | a in log :: a in needed
    {
      hide Consistent, Closed, InRequestOrder, Behind;
      var i := 0;
      RequestsInTable(table, rank, requested, completed, log);
      FirstServed(table, rank, requested, completed, log, actions, 0);
      while i < |actions|
        invariant 0 <= i <= |actions| && Valid()
        invariant forall j | 0 <= j < i :: actions[j] in completed
        invariant completed <= Behind(table, requested, Requested(actions[..i]))
        invariant InRequestOrder(table, rank, requested, log, actions, i)
      {
        Outstanding(actions, i, completed);
        ghost var within, was := Behind(table, requested, Requested(actions[..i + 1])), log;
        OneMoreRequest(table, rank, requested, completed, log, actions, i);
        ExecuteAction(actions[i], actions[i + 1..], actions[i], within);
        ServesStill(table, rank, requested, was, log, actions, i);
        i := i + 1;
        FirstServed(table, rank, requested, completed, log, actions, i);
      }
      Outstanding(actions, i, completed);
      Served(table, rank, requested, completed, log);
    }
  }

  /** A fresh invocation on any table without cycles: whatever is requested, the calls are in
      order, serve every request and stay within every needed set. */
  method RunRequests(table: Table, actions: seq<Action>, ghost needed: set<Action>)
    returns (log: seq<Action>, ghost rank: map<Action, nat>)
    requires Acyclic(table) && Closed(table, needed)
    requires forall a | a in actions :: a in table && a in needed
    ensures Ranked(table, rank) && Requested(actions) <= table.Keys
    ensures InOrder(table, rank, Requested(actions), log)
    ensures InRequestOrder(table, rank, Requested(actions), log, actions, |actions|)
    ensures forall a | a in actions :: Target(table, rank, a) in log
    ensures forall a | a in log :: a in needed
  {
    hide Acyclic, Ranked, InOrder, InRequestOrder, Closed;
    assert RankedOn(table, map[], {});
    rank := AcyclicIsRanked(table, map[], {});
    var tool := new Tool(table, rank, Requested(actions), needed);
    tool.Run(actions);
    log := tool.log;
  }

  lemma EdgeDescends(t: Table, rank: map<Action, nat>, requested: set<Action>, needed: set<Action>,
    completed: set<Action>, log: seq<Action>, a: Action, d: Action)
    requires Consistent(t, rank, requested, completed, log) && Closed(t, needed) && a in t && a in needed
    requires d in t[a].deps || (d in t[a].order && d in requested && requested <= needed) || t[a].body == Alias(d)
    ensures d in t && a in rank && d in rank && rank[d] < rank[a] && d in needed
  {}
}
