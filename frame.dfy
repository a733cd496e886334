/**
 * The two frame steps of the waterfall, over the linked pool, and the
 * program's global state they read and update.
 *
 * Both frame steps receive the head of the pool as a parameter and work on
 * their own copy of it: trimming the front, or removing the first node,
 * changes the head only for the duration of the step. The caller's head
 * (the global `particles`) is left as it was.
 *
 * Throughout, `ps` names the particles a list holds (`Holds`), as a ghost
 * value that the contracts relate to the policies of module `Retirement`.
 */
module Frame {
  import opened Particles
  import opened Retirement
  import opened ParticleList

  /**
   * The front-trim loop of `draw_particles`: the head moves past every
   * expired particle at the front, stopping at the first live one. No node
   * changes.
   */
  method TrimExpired(particles: ListItem?, ghost nodes: seq<ListItem>, ghost ps: seq<Particle>)
    returns (head: ListItem?)
    requires Holds(particles, nodes, ps)
    ensures Holds(head, nodes[TrimCount(ps)..], FrontTrim(ps))
  {
    head := particles;
    ghost var d := 0;
    while head != null && Expired(head.particle)
      invariant 0 <= d <= |nodes| && IsList(head, nodes[d..])
      invariant forall i :: 0 <= i < d ==> Expired(ps[i])
      decreases |nodes| - d
    {
      PopFrontIsTail(head, nodes[d..]);
      assert nodes[d..][1..] == nodes[d + 1..];
      head := PopFront(head);
      d := d + 1;
    }
    TrimCountIsFirstLive(ps, d);
    CarriesSuffix(nodes, ps, d);
  }

  /** The age-update loop of `draw_particles`: every particle of the list takes its age step, in list order. */
  method AdvanceEach(head: ListItem?, ghost nodes: seq<ListItem>, ghost ps: seq<Particle>)
    requires Holds(head, nodes, ps)
    modifies nodes`particle
    ensures Holds(head, nodes, AdvanceAll(ps))
  {
    var current := head;
    ghost var i := 0;
    while current != null
      invariant 0 <= i <= |nodes|
      invariant current == if i < |nodes| then nodes[i] else null
      invariant forall j :: 0 <= j < i ==> nodes[j].particle == Advance(ps[j])
      invariant forall j :: i <= j < |nodes| ==> nodes[j].particle == ps[j]
      decreases |nodes| - i
    {
      if i < |nodes| - 1 {
        Successor(head, nodes, i);
      }
      Unique(head, nodes, i);
      current.particle := Advance(current.particle);
      current := current.next;
      i := i + 1;
    }
    AdvanceAllAges(ps);
  }

  /**
   * One turn of the spawn loop, `push_item(&local, create_item())`: a fresh
   * node holding a new particle is appended to the list held by `list`.
   */
  method SpawnOne(list: ListRef, maxAge: int, attributes: Attributes, ghost nodes: seq<ListItem>)
    returns (ghost item: ListItem)
    requires IsList(list.head, nodes)
    modifies list, nodes`next
    ensures IsList(list.head, nodes + [item])
    ensures fresh(item) && item.particle == NewParticle(maxAge, attributes)
    ensures nodes != [] ==> list.head == old(list.head)
  {
    var created := CreateItem(maxAge, attributes);
    ghost var grown := PushItem(list, created, nodes, [created]);
    item := created;
  }

  /**
   * The spawn loop shared by both frame steps: `numNew` fresh nodes (none
   * when `numNew <= 0`), each holding a new particle of lifespan `maxAge`,
   * are pushed one by one onto the list held by `list`.
   */
  method SpawnParticles(list: ListRef, numNew: int, maxAge: int, attributes: nat -> Attributes,
                        ghost nodes: seq<ListItem>, ghost ps: seq<Particle>)
    returns (ghost spawned: seq<ListItem>)
    requires Holds(list.head, nodes, ps)
    modifies list, nodes`next
    ensures |spawned| == SpawnTotal(numNew)
    ensures Holds(list.head, nodes + spawned, ps + Spawned(numNew, maxAge, attributes))
    ensures forall i :: 0 <= i < |spawned| ==> fresh(spawned[i])
    ensures nodes != [] ==> list.head == old(list.head)
  {
    var count := 0;
    spawned := [];
    assert nodes + spawned == nodes;
    while count < numNew
      invariant 0 <= count == |spawned| <= SpawnTotal(numNew)
      invariant IsList(list.head, nodes + spawned)
      invariant forall i :: 0 <= i < |spawned| ==> fresh(spawned[i])
      invariant forall j :: 0 <= j < count ==> spawned[j].particle == NewParticle(maxAge, attributes(j))
      invariant nodes != [] ==> list.head == old(list.head)
    {
      ghost var item := SpawnOne(list, maxAge, attributes(count), nodes + spawned);
      assert (nodes + spawned) + [item] == nodes + (spawned + [item]);
      spawned := spawned + [item];
      count := count + 1;
    }
    SpawnedCarried(nodes, spawned, ps, numNew, maxAge, attributes);
  }

  /** Nodes holding the new particles in creation order, after nodes holding `ps`, hold `ps` followed by the new particles. */
  lemma SpawnedCarried(nodes: seq<ListItem>, spawned: seq<ListItem>, ps: seq<Particle>,
                       numNew: int, maxAge: int, attributes: nat -> Attributes)
    requires Carries(nodes, ps) && |spawned| == SpawnTotal(numNew)
    requires forall j :: 0 <= j < |spawned| ==> spawned[j].particle == NewParticle(maxAge, attributes(j))
    ensures Carries(nodes + spawned, ps + Spawned(numNew, maxAge, attributes))
  {
    SpawnedAreNew(numNew, maxAge, attributes);
    CarriesAppend(nodes, spawned, ps, Spawned(numNew, maxAge, attributes));
  }

  /**
   * The spawn loop and the age-update loop of `draw_particles`, one after the
   * other: the new particles are appended, then every particle takes its age step.
   */
  method SpawnAndAdvance(list: ListRef, numNew: int, maxAge: int, attributes: nat -> Attributes,
                         ghost nodes: seq<ListItem>, ghost ps: seq<Particle>)
    returns (ghost nodes': seq<ListItem>)
    requires Holds(list.head, nodes, ps)
    modifies list, nodes`next, nodes`particle
    ensures nodes <= nodes' && forall i :: |nodes| <= i < |nodes'| ==> fresh(nodes'[i])
    ensures Holds(list.head, nodes', AdvanceAll(ps + Spawned(numNew, maxAge, attributes)))
  {
    ghost var spawned := SpawnParticles(list, numNew, maxAge, attributes, nodes, ps);
    AdvanceEach(list.head, nodes + spawned, ps + Spawned(numNew, maxAge, attributes));
    nodes' := nodes + spawned;
  }

  /** The first node of the unvisited part of a list is in neither part around it, and links to the node after it. */
  lemma FirstOfRest(head: ListItem?, kept: seq<ListItem>, rest: seq<ListItem>)
    requires IsList(head, kept + rest) && rest != []
    ensures rest[0] !in kept && rest[0] !in rest[1..]
    ensures rest[0].next == if |rest| > 1 then rest[1] else null
  {
    var all := kept + rest;
    assert rest[0] == all[|kept|];
    Unique(head, all, |kept|);
    assert forall i :: 0 <= i < |kept| ==> kept[i] == all[i];
    assert forall i :: 1 <= i < |rest| ==> rest[i] == all[|kept| + i];
    if |rest| > 1 {
      Successor(head, all, |kept|);
    }
  }

  /**
   * `remove_item` applied to the first node of the unvisited part of a list:
   * that node is dropped and the node after it is returned.
   */
  method Unlink(list: ListRef, current: ListItem, ghost kept: seq<ListItem>, ghost rest: seq<ListItem>)
    returns (next: ListItem?)
    requires IsList(list.head, kept + rest) && rest != [] && current == rest[0]
    modifies list, (kept + rest)`next
    ensures IsList(list.head, kept + rest[1..])
    ensures next == if |rest| > 1 then rest[1] else null
  {
    FirstOfRest(list.head, kept, rest);
    ghost var all := kept + rest;
    assert all[|kept|] == current;
    ghost var nodes', at;
    next, nodes', at := RemoveItem(list, current, all);
    assert at == |kept|;
    assert all[..at] == kept && all[at + 1..] == rest[1..];
  }

  /** The nodes whose particle the full scan keeps, in list order. */
  ghost function KeptNodes(nodes: seq<ListItem>, ps: seq<Particle>): (r: seq<ListItem>)
    ensures |r| <= |nodes|
  {
    if nodes == [] || ps == [] then []
    else (if Dying(ps[0]) then [] else [nodes[0]]) + KeptNodes(nodes[1..], ps[1..])
  }

  /** The nodes a scan loop leaves: the kept ones when it starts at a node, all of them when it starts at `null`. */
  ghost function KeptFrom(started: bool, nodes: seq<ListItem>, ps: seq<Particle>): seq<ListItem>
  {
    if started then KeptNodes(nodes, ps) else nodes
  }

  /** `KeptNodes` takes the first node when its particle is not dying, and then the nodes kept of the rest. */
  lemma KeptNodesFirst(rest: seq<ListItem>, todo: seq<Particle>)
    requires |rest| == |todo| && rest != []
    ensures !Dying(todo[0]) ==> KeptNodes(rest, todo) == [rest[0]] + KeptNodes(rest[1..], todo[1..])
    ensures Dying(todo[0]) ==> KeptNodes(rest, todo) == KeptNodes(rest[1..], todo[1..])
  {
  }

  /**
   * One turn of the scan: when the first unvisited node is kept only when
   * its particle is not dying, the kept nodes so far followed by those the
   * scan will keep of the rest stay the same.
   */
  lemma KeptNodesStep(kept: seq<ListItem>, kept': seq<ListItem>, rest: seq<ListItem>, todo: seq<Particle>)
    requires |rest| == |todo| && rest != []
    requires Dying(todo[0]) ==> kept' == kept
    requires !Dying(todo[0]) ==> kept' == kept + [rest[0]]
    ensures kept' + KeptNodes(rest[1..], todo[1..]) == kept + KeptNodes(rest, todo)
  {
    KeptNodesFirst(rest, todo);
    if !Dying(todo[0]) {
      var later := KeptNodes(rest[1..], todo[1..]);
      assert (kept + [rest[0]]) + later == kept + ([rest[0]] + later);
    }
  }

  /**
   * The state of the scan loop over a list whose nodes are among `nodes`: the
   * list is the visited nodes that were kept followed by the unvisited ones;
   * the kept nodes hold `done` and the unvisited ones still hold `todo`.
   */
  ghost predicate Scanning(head: ListItem?, nodes: seq<ListItem>, kept: seq<ListItem>, rest: seq<ListItem>,
                           done: seq<Particle>, todo: seq<Particle>)
    reads kept`next, kept`particle, rest`next, rest`particle
  {
    && (forall i :: 0 <= i < |kept + rest| ==> (kept + rest)[i] in nodes)
    && IsList(head, kept + rest) && Carries(kept, done) && Carries(rest, todo)
  }

  /** The global state of the program that the frame steps use. */
  class Simulation {
    /** The global head of the pool (main.c:25). */
    var particles: ListItem?
    /** The frame counter (main.c:24). */
    var currentTime: int
    /** How many particles `draw_particles2` has retired (main.c:26). */
    var particlesRemoved: int
    /** The lifespan given to every new particle (main.c:14). */
    var maxAge: int

    /** The globals as the program starts. */
    constructor ()
      ensures particles == null && currentTime == 0 && particlesRemoved == 0 && maxAge == 70
    {
      particles := null;
      currentTime := 0;
      particlesRemoved := 0;
      maxAge := 70;
    }

    /**
     * `draw_particles`: the expired particles at the front are dropped, the
     * new particles are appended, every particle of the resulting list takes
     * its age step and the frame counter rises by one. The caller passes the
     * global head, `particles` (main.c:103), by value as `head`; that global
     * is not updated: the resulting list is only the step's own `local`.
     */
    method DrawParticles(head: ListItem?, ghost nodes: seq<ListItem>, ghost ps: seq<Particle>,
                         numNew: int, attributes: nat -> Attributes)
      returns (local: ListItem?, ghost nodes': seq<ListItem>)
      requires Holds(head, nodes, ps)
      modifies this`currentTime, nodes[TrimCount(ps)..]`next, nodes[TrimCount(ps)..]`particle
      ensures particles == old(particles)
      ensures nodes[TrimCount(ps)..] <= nodes'
      ensures forall i :: |nodes| - TrimCount(ps) <= i < |nodes'| ==> fresh(nodes'[i])
      ensures Holds(local, nodes', FrontTrimFrame(ps, numNew, maxAge, attributes))
      ensures currentTime == old(currentTime) + 1
    {
      var list := new ListRef(head);
      list.head := TrimExpired(list.head, nodes, ps);
      nodes' := SpawnAndAdvance(list, numNew, maxAge, attributes, nodes[TrimCount(ps)..], FrontTrim(ps));
      local := list.head;
      Tick();
    }

    /** `current_time++`: the frame counter rises by one. */
    method Tick()
      modifies this`currentTime
      ensures currentTime == old(currentTime) + 1
    {
      currentTime := currentTime + 1;
    }

    /**
     * One turn of the scan loop of `draw_particles2` on the first node of the
     * unvisited part `rest`: a dying particle's node is unlinked and counted,
     * any other particle takes its age step and its node joins `kept`. The
     * returned node is the one after it either way.
     */
    method ScanStep(list: ListRef, current: ListItem, ghost nodes: seq<ListItem>,
                    ghost kept: seq<ListItem>, ghost rest: seq<ListItem>,
                    ghost done: seq<Particle>, ghost todo: seq<Particle>)
      returns (next: ListItem?, ghost kept': seq<ListItem>, ghost done': seq<Particle>)
      requires Scanning(list.head, nodes, kept, rest, done, todo) && rest != [] && current == rest[0]
      modifies list, nodes`next, nodes`particle, this`particlesRemoved
      ensures Scanning(list.head, nodes, kept', rest[1..], done', todo[1..])
      ensures next == if |rest| == 1 then null else rest[1]
      ensures Dying(todo[0]) ==> kept' == kept
      ensures !Dying(todo[0]) ==> kept' == kept + [current]
      ensures done' + Sweep(todo[1..]) == done + Sweep(todo)
      ensures particlesRemoved + DeathCount(todo[1..]) == old(particlesRemoved) + DeathCount(todo)
    {
      FirstOfRest(list.head, kept, rest);
      assert (kept + rest)[|kept|] == current;
      if Dying(current.particle) {
        particlesRemoved := particlesRemoved + 1;
        next := Unlink(list, current, kept, rest);
        assert forall i :: 0 <= i < |kept + rest[1..]| ==>
          (kept + rest[1..])[i] == (kept + rest)[if i < |kept| then i else i + 1];
        return next, kept, done;
      }
      current.particle := Advance(current.particle);
      next := current.next;
      kept' := kept + [current];
      done' := done + [current.particle];
      assert kept' + rest[1..] == kept + rest;
      assert done' + Sweep(todo[1..]) == done + ([current.particle] + Sweep(todo[1..]));
    }

    /**
     * The scan loop of `draw_particles2` over the whole list held by `list`:
     * each dying particle's node is unlinked and counted in
     * `particlesRemoved`, every other particle takes its age step and its
     * node stays, in order.
     */
    method ScanAll(list: ListRef, ghost nodes: seq<ListItem>, ghost ps: seq<Particle>)
      returns (ghost nodes': seq<ListItem>)
      requires Holds(list.head, nodes, ps)
      modifies list, nodes`next, nodes`particle, this`particlesRemoved
      ensures nodes' == KeptNodes(nodes, ps)
      ensures Holds(list.head, nodes', Sweep(ps))
      ensures particlesRemoved == old(particlesRemoved) + DeathCount(ps)
    {
      ghost var kept: seq<ListItem> := [];
      ghost var rest := nodes;
      ghost var done: seq<Particle> := [];
      ghost var todo := ps;
      assert kept + rest == nodes;
      var current := list.head;
      while current != null
        invariant Scanning(list.head, nodes, kept, rest, done, todo)
        invariant current == if |rest| == 0 then null else rest[0]
        invariant kept + KeptNodes(rest, todo) == KeptNodes(nodes, ps)
        invariant done + Sweep(todo) == Sweep(ps)
        invariant particlesRemoved + DeathCount(todo) == old(particlesRemoved) + DeathCount(ps)
        decreases |rest|
      {
        ghost var kept0 := kept;
        current, kept, done := ScanStep(list, current, nodes, kept, rest, done, todo);
        KeptNodesStep(kept0, kept, rest, todo);
        rest := rest[1..];
        todo := todo[1..];
      }
      nodes' := kept;
      assert kept + rest == kept && kept + KeptNodes(rest, todo) == kept && done + Sweep(todo) == done;
    }

    /**
     * The scan loop of `draw_particles2` started at `start`, the head the
     * list had before spawning: from a node it scans the whole list
     * (`ScanAll`); from `null` it visits nothing and changes nothing.
     */
    method RemoveDeadAndAdvance(list: ListRef, start: ListItem?, ghost nodes: seq<ListItem>, ghost ps: seq<Particle>)
      returns (ghost nodes': seq<ListItem>)
      requires Holds(list.head, nodes, ps) && (start == null || start == list.head)
      modifies list, nodes`next, nodes`particle, this`particlesRemoved
      ensures nodes' == KeptFrom(start != null, nodes, ps)
      ensures Holds(list.head, nodes', ScanFrom(start != null, ps))
      ensures start == null ==> list.head == old(list.head)
      ensures particlesRemoved == old(particlesRemoved) + ScanFromDeaths(start != null, ps)
    {
      nodes' := nodes;
      if start != null {
        nodes' := ScanAll(list, nodes, ps);
      }
    }

    /**
     * The spawn loop and the scan loop of `draw_particles2`: the scan starts
     * from the head the list had before the new particles were appended.
     */
    method SpawnAndScan(list: ListRef, numNew: int, attributes: nat -> Attributes,
                        ghost nodes: seq<ListItem>, ghost ps: seq<Particle>)
      returns (ghost nodes': seq<ListItem>, ghost spawned: seq<ListItem>)
      requires Holds(list.head, nodes, ps)
      modifies list, nodes`next, nodes`particle, this`particlesRemoved
      ensures |spawned| == SpawnTotal(numNew) && forall i :: 0 <= i < |spawned| ==> fresh(spawned[i])
      ensures nodes' == KeptFrom(ps != [], nodes + spawned, ps + Spawned(numNew, maxAge, attributes))
      ensures Holds(list.head, nodes', ScanFrame(ps, numNew, maxAge, attributes))
      ensures particlesRemoved == old(particlesRemoved) + ScanFrameDeaths(ps, numNew, maxAge, attributes)
    {
      var current := list.head;
      spawned := SpawnParticles(list, numNew, maxAge, attributes, nodes, ps);
      nodes' := RemoveDeadAndAdvance(list, current, nodes + spawned, ps + Spawned(numNew, maxAge, attributes));
    }

    /**
     * `draw_particles2`: the new particles are appended, then the list is
     * scanned from the head taken before spawning; the scan removes every
     * dying particle, ages the others and counts the removals, and the frame
     * counter rises by one. The resulting list is made of the old nodes and
     * the `spawned` fresh ones, less the nodes the scan unlinked. The head is
     * received by value as `head`, as for `draw_particles`; the global
     * `particles` is not updated.
     */
    method DrawParticles2(head: ListItem?, ghost nodes: seq<ListItem>, ghost ps: seq<Particle>,
                          numNew: int, attributes: nat -> Attributes)
      returns (local: ListItem?, ghost nodes': seq<ListItem>, ghost spawned: seq<ListItem>)
      requires Holds(head, nodes, ps)
      modifies this`currentTime, this`particlesRemoved, nodes`next, nodes`particle
      ensures particles == old(particles)
      ensures |spawned| == SpawnTotal(numNew) && forall i :: 0 <= i < |spawned| ==> fresh(spawned[i])
      ensures nodes' == KeptFrom(ps != [], nodes + spawned, ps + Spawned(numNew, maxAge, attributes))
      ensures Holds(local, nodes', ScanFrame(ps, numNew, maxAge, attributes))
      ensures particlesRemoved == old(particlesRemoved) + ScanFrameDeaths(ps, numNew, maxAge, attributes)
      ensures currentTime == old(currentTime) + 1
    {
      var list := new ListRef(head);
      nodes', spawned := SpawnAndScan(list, numNew, attributes, nodes, ps);
      local := list.head;
      Tick();
    }
  }
}
