# Waterfall particle pool

A model of the particle-pool bookkeeping of the waterfall particle system in
`main.c`. The program keeps its particles in a singly linked list of
`struct ListItem` nodes. The source has two frame steps over that list:

- `draw_particles` drops the expired particles at the front, appends the new
  particles, ages every particle by one and bumps `current_time`.
- `draw_particles2` appends the new particles, then scans the list from the
  head it had before spawning. The scan unlinks every particle whose next
  step would take it past its lifespan, counting it in `particles_removed`,
  and ages every other particle. It also bumps `current_time`.

Only `draw_particles` is called: `display` runs it once per frame
(main.c:103). `draw_particles2` is declared in `waterfall.h` and defined, but
nothing calls it. The model covers both.

The model has four modules:

- `Particles` (`particles.dfy`): the particle record, with its two integer
  fields `age` and `lifespan` as real state. The floating-point attributes
  are an opaque value. The module also holds the integer part of
  `create_particle`, the age step of `draw_particle`, the two expiry tests
  and the spawn count.
- `Retirement` (`retirement.dfy`): the two retirement policies over
  sequences of particles, and what each of them promises.
- `ParticleList` (`particle_list.dfy`): the list nodes and the list
  routines `create_item`, `push_item`, `add_particle`, `remove_item` and
  `pop_front`. They work on heap objects. The ghost sequence of the nodes
  reached from the head, `IsList(head, nodes)`, states the list's shape.
- `Frame` (`frame.dfy`): the two frame steps on the linked list, in the
  class `Simulation` that holds the program's globals. Each frame step's
  contract ties the particles of the resulting list to the value-level
  policy in `Retirement`.

Both frame steps take the head of the pool by value, as the C functions do.
Trimming the front or unlinking the first node changes only the step's local
head. The model returns that local head. The caller passes the global
`particles` (main.c:103) as the parameter `head`; both methods ensure that
the global field `particles` keeps its old value (after
`draw_particles2` that head may be a node the step freed; see below). `DrawParticles`
also leaves the nodes it trimmed untouched. So the list reached from the
global head still starts with the trimmed nodes, and the new nodes are linked
after the last node (unless the trim emptied the local list).

The spawn count is a parameter of each frame step. `SpawnCount` models how
the source computes it: `new_particles_mean + r * new_particles_variance`,
stored in an `int`. The source truncates this toward zero, and the model
follows the code. The random fraction is taken
as lying in the closed interval [0, 1], since `rand() / RAND_MAX` can equal 1.

## Model

| member | source | states |
|---|---|---|
| Particles.NewParticle | main.c:230-231 | a new particle has age 0 and lifespan `max_age`, and keeps the attributes it was given |
| Particles.Advance | main.c:254 | the age step raises the age by exactly one and changes neither the lifespan nor the attributes |
| Particles.Expired | main.c:283 | the trim's test `age > lifespan`: an expired particle has at least reached its lifespan |
| Particles.Dying | main.c:324 | the scan's test `age + 1 > lifespan` holds exactly when the particle has reached its lifespan |
| Particles.AdvanceExpiresExactlyTheDying | main.c:324 | a particle fails the scan's test `age + 1 > lifespan` exactly when its age step makes it fail the trim's test `age > lifespan`; a particle that passes the scan's test is not expired |
| Particles.TruncateToInt | main.c:289-290 | float-to-int conversion truncates toward zero: the result is the integer part, with the sign of the input |
| Particles.SpawnCount | main.c:289-290 | when the sum of the mean and the scaled random fraction is not negative, the count is its integer part: not above the sum and less than one below it |
| Particles.SpawnCountBounds | main.c:289-290 | with a non-negative mean and variance and a fraction in [0, 1], the spawn count lies between the mean and the mean plus the variance |
| Retirement.TrimCount | main.c:282-286 | the number of particles the front-trim loop drops is at most the pool size |
| Retirement.TrimCountStopsAtFirstLive | main.c:282-286 | every particle the trim drops is expired, and the first particle it keeps is not |
| Retirement.TrimCountIsFirstLive | main.c:282-286 | any expired prefix followed by a live particle, or by nothing, is exactly what the trim drops |
| Retirement.FrontTrim | main.c:282-286 | the front trim never lengthens the pool |
| Retirement.FrontTrimDropsExpiredPrefix | main.c:282-286 | the trim keeps a suffix of the pool; all it drops is expired; its new head, if any, is not expired |
| Retirement.FrontTrimIdempotent | main.c:282-286 | trimming an already trimmed pool drops nothing |
| Retirement.FrontTrimKeepsExpiredBehindLive | main.c:282-286 | in any pool, a live particle and every particle behind it survive the trim, in place; so an expired particle behind a live one is kept |
| Retirement.AdvanceAll | main.c:298-303 | ageing the pool keeps its length |
| Retirement.AdvanceAllAges | main.c:298-303 | ageing the pool gives every particle exactly one age step, in place |
| Retirement.AdvanceAllAppend | main.c:298-303 | ageing two runs of particles is ageing each of them |
| Retirement.Spawned | main.c:291-295 | a frame creates exactly as many particles as the spawn loop runs |
| Retirement.SpawnedAreNew | main.c:291-295 | the i-th created particle has age 0, lifespan `max_age` and the i-th attributes drawn |
| Retirement.FrontTrimFrame | main.c:277-305 | the pool after a `draw_particles` frame has as many particles as the trim keeps plus the number spawned |
| Retirement.FrontTrimFrameShape | main.c:277-305 | after a `draw_particles` frame the trim's survivors come first, each one step older, followed by exactly the new particles in creation order, each at age 1 with lifespan `max_age` |
| Retirement.Sweep | main.c:321-334 | the full scan never lengthens the pool |
| Retirement.SweepLeavesNoExpired | main.c:321-334 | no particle left by the full scan is expired |
| Retirement.DeathCount | main.c:324-328 | the number of removals plus the number of particles left is the pool size |
| Retirement.Survivors | main.c:324 | a particle is a survivor exactly when it is in the pool and is not dying |
| Retirement.SweepIsAgedSurvivors | main.c:321-334 | the scan leaves exactly the survivors, in order, each aged by one step |
| Retirement.SweepAppend | main.c:321-334 | scanning a list in two parts is scanning each part, for the particles left and for the removals counted |
| Retirement.SweepAllDying | main.c:324-328 | a pool in which every particle is dying is emptied, and every particle is counted as removed |
| Retirement.SweepNoneDying | main.c:331-333 | a pool in which no particle is dying loses nothing; every particle just ages, and nothing is counted |
| Retirement.ScanFrame | main.c:307-336 | the pool after a `draw_particles2` frame is never larger than the old pool plus the spawned particles |
| Retirement.ScanFrameDeaths | main.c:326 | the removals a `draw_particles2` frame counts plus the particles it leaves equal the old pool plus the spawned particles |
| Retirement.ScanFrameRetires | main.c:307-336 | after a `draw_particles2` frame the pool grew by the spawned particles minus those counted as removed, and no particle is expired (on an empty pool, whose new particles stay unscanned at age 0, provided `max_age` is not negative). On a non-empty pool the old and the new particles are scanned alike |
| ParticleList.ListItem.constructor | main.c:384-387 | a new node holds its particle and has no successor |
| ParticleList.TailIsList | main.c:444-451 | the nodes after the head of a list form a list |
| ParticleList.Unique | main.c:410-441 | a node occurs in a list only once |
| ParticleList.LastNodeEndsList | main.c:401-404 | the only node of a list whose `next` is null is the last one, where the tail walk stops |
| ParticleList.JoinAfterLast | main.c:405 | linking the last node of a list to the head of a disjoint list makes one list of the two |
| ParticleList.PopFront | main.c:444-451 | `pop_front` of the empty list is null, and otherwise it is the head's successor |
| ParticleList.PopFrontIsTail | main.c:444-451 | `pop_front` returns the tail of the list, which is null exactly when the list has at most one node |
| ParticleList.CreateItem | main.c:382-389 | `create_item` returns a fresh, detached node holding a new particle of lifespan `max_age` |
| ParticleList.PushItem | main.c:391-408 | a null handle changes nothing. An empty list becomes the pushed list. Otherwise the pushed nodes follow the old nodes, which keep their order and head |
| ParticleList.AddParticle | main.c:364-380 | a fresh node holding the particle, with no successor, is appended after the last node of the non-empty list and returned |
| ParticleList.Bypass | main.c:428-430 | linking the node before `current` to the node after it removes exactly `current` from the list |
| ParticleList.RemoveItem | main.c:410-441 | with a null handle, an empty list or an item not in the list, nothing changes and null is returned. Otherwise exactly that node is removed, the other nodes keep their order, the head moves on if the item was first, and the item's successor is returned |
| Frame.TrimExpired | main.c:282-286 | the front-trim loop leaves the list of the nodes from the first live particle on, holding the trimmed particles |
| Frame.AdvanceEach | main.c:298-303 | the age-update loop gives every particle of the list exactly one age step, in list order, and changes no link |
| Frame.SpawnOne | main.c:294 | one `push_item(&particles, create_item())` appends one fresh node holding a new particle |
| Frame.SpawnParticles | main.c:291-295 | the spawn loop runs `num_new_particles` times when that is positive and not at all otherwise, appending that many fresh nodes holding the new particles in creation order; a non-empty list keeps its head |
| Frame.SpawnAndAdvance | main.c:288-303 | the spawn loop followed by the age-update loop: the list is the old nodes and then fresh ones, and holds every old and new particle one step older |
| Frame.FirstOfRest | main.c:321-333 | the node the scan is at occurs once in the list and links to the node after it |
| Frame.Unlink | main.c:327 | `remove_item` on the node the scan is at drops exactly that node and returns the next one |
| Frame.KeptNodes | main.c:321-334 | the scan keeps at most the nodes it visits; `ScanAll` states that they are exactly the nodes whose particle is not dying |
| Frame.Simulation.constructor | main.c:14-26 | the globals start with no particles, `current_time` and `particles_removed` at 0, and `max_age` at 70 |
| Frame.Simulation.DrawParticles | main.c:277-305 | the local list holds the trimmed pool and then exactly the new particles, all one step older; its nodes are the untrimmed old nodes followed by fresh ones; the trimmed nodes and the global head are left unchanged; `current_time` rises by one |
| Frame.Simulation.Tick | main.c:304 | `current_time` rises by exactly one |
| Frame.Simulation.ScanStep | main.c:321-334 | one turn of the scan: a dying particle's node is unlinked and counted, and the kept nodes stay as they were; any other particle is aged and its node is appended to the kept nodes. Either way the scan moves to the next node, and what is kept plus the scan of the rest stays the scan of the whole |
| Frame.KeptNodesStep | main.c:321-334 | one turn of the scan keeps the nodes kept so far plus the nodes the scan keeps of the rest the same |
| Frame.Simulation.ScanAll | main.c:321-334 | the scan loop over a whole list leaves exactly the nodes whose particle is not dying, in order, holding the full scan of the particles, and adds the number of dying particles to `particles_removed` |
| Frame.Simulation.RemoveDeadAndAdvance | main.c:309-334 | the scan loop from the head taken before spawning: from a node it scans the whole list; from null it changes no node, keeps the head and counts nothing |
| Frame.Simulation.SpawnAndScan | main.c:309-334 | the spawn loop, then the scan from the old head: the list is the old nodes and the fresh ones less the nodes unlinked (all of them kept when the pool was empty), and holds the frame's particles |
| Frame.Simulation.DrawParticles2 | main.c:307-336 | the local list is made of the old nodes and `num_new_particles` fresh ones, less those whose particle was dying (none when the pool was empty); it holds the scan of the old and new particles (the new ones unscanned when the pool was empty); `particles_removed` rises by the number removed, `current_time` rises by one, and the global head is left unchanged |

## Left out

- Rendering, windowing, keyboard input, the console output and the frame-rate
  timing: `main`, `display`, `reshape`, `keyboard`, `create_axes`,
  `initialise_system`, `draw_ejection_line`, `print_controls`,
  `set_viewpoints`, `average_ms_per_frame` and the OpenGL half of
  `draw_particle`. They have no bookkeeping behaviour. In particular
  `main`'s initial `particles = create_item()` is not modelled; the
  `Simulation` constructor starts from the declared null head.
- The floating-point kinematics and sampling: the position, speed and
  direction update of `draw_particle`, `initial_particle_position`,
  `initial_particle_direction`, `scalar_multiply`, `add_directions` and
  the float fields set by `create_particle`. Particles carry these fields as
  the opaque `Attributes` value, which no operation changes.
- `random_probability` and `rand`: the random attributes of each new particle
  are the parameter `attributes`, and the spawn count is the parameter
  `numNew`. `SpawnCount` models how the count is computed from a given
  fraction.
- `malloc` and `free`: nodes are allocated with `new` and never freed. The
  model does not capture that `remove_item` frees the node but not its
  particle, nor that `pop_front` and the front trim free nothing. Since
  `draw_particles2` frees a removed node, when the caller's first node is
  dying the caller's head points to a freed node after the step. The model
  keeps that node alive, so this dangling pointer is not captured.
- Particles are held by value in their node, while the source holds a pointer
  to a particle that only that node owns. Particles are never shared between
  nodes, so updating the particle through the pointer and updating the node's
  field are the same.
- Particles.SpawnCount: computes in exact real arithmetic. The source sums
  in `float`: the `int` mean loses precision above 2^24 (so the count can
  fall below the mean), the sum can round up to the next integer before the
  truncation, and converting an out-of-range `float` to `int` is undefined
  behaviour in C. None of this is modelled; `SpawnCountBounds` holds for the
  exact sum.
- Particles.SpawnCountBounds: holds for the exact real sum only; with the
  source's `float` sum the lower bound fails for a mean above 2^24.
- Particles.Advance: keeps the attributes as they were, while the source's
  `draw_particle` also moves the particle (position, direction and speed,
  main.c:242-253). So the contracts that carry the attributes through the age
  step (`Advance`, `AdvanceEach`, `FrontTrimFrameShape`) state a property
  of the model only; the source promises nothing about those fields. It also
  does not model 32-bit overflow of `age`; a particle is retired long before
  its age could overflow.
- Frame.Simulation.Tick: does not model 32-bit overflow of `current_time`.
- Frame.Simulation.ScanStep: does not model 32-bit overflow of
  `particles_removed`. The same holds for `RemoveDeadAndAdvance` and
  `DrawParticles2`.
- ParticleList.PushItem: requires the pushed nodes to be disjoint from the
  list. Pushing a node that is already in the list makes a cycle in the
  source. Every caller pushes a freshly created node.
- ParticleList.AddParticle: requires a non-empty list, because the source
  dereferences `list` without checking it for null.
