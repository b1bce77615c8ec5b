# Viral disease simulator — a verified Dafny model

The simulator is a cellular automaton of an epidemic on a sparse square lattice, 150 by
150. Each cell is susceptible (S), infected (I) or resistant, meaning dead (R), and it
carries a time counter. A `Map` stores cells in a dictionary keyed by `(x, y)`. One time
step calls `process` on every stored cell, in the dictionary's iteration order, with the
cells found at its four lattice neighbours. `process` works as follows:

- It advances the counter.
- Once the counter reaches the recovery time (4), it forces the cell back to S.
- An infected cell rolls for death.
- A cell still infected then rolls once, with probability `virality`, for each
  susceptible neighbour, and infects it on success.

Infections take effect at once. So a cell infected earlier in a step is processed in its
infected state later in the same step.

The model has six modules:

- **Rules** (`rules.dfy`) holds the constants and two pure rules. `Age` is what `process`
  does to the processing cell. `Spread` is the propagation walk over the neighbour list.
- **Cells** (`cells.dfy`) is the `Cell` class with its mutable `state` and `time`.
  - `Process` and its loop `Propagate` are proved against `Age` and `Spread`.
- **World** (`world.dfy`) describes the whole map as a value, a grid from coordinates to
  cell states.
  - `AdjacentKeys` is the neighbour lookup.
  - `ProcessAt` is one `process` call.
  - `Pass` is a whole time step, with lemmas about cascades, ages and quiet maps.
- **Maps** (`maps.dfy`) is the `Map` class. It holds the dictionary `cells` and its
  insertion order `order`.
  - `AddCell` inserts a cell, and `AdjacentCells` looks up a cell's neighbours.
  - `TimeStep` is proved to produce exactly `Pass` over the iteration order.
- **Scenarios** (`scenarios.dfy`) and **Demo** (`demo.dfy`) are worked examples.
  - Scenarios covers two-cell maps in both insertion orders, a three-cell cascade, lone
    cells over several steps, and neighbour lookups at the lattice edge.
  - Demo builds a two-cell map with the class methods and steps it.

Randomness is a parameter. The random stream is seen only through its yes/no outcomes:
draw number `k` is `rolls(k)`. The death roll and each infection roll consume one draw,
in program order. `Process`, `ProcessAt`, `Pass` and `TimeStep` take the index of the next
unused draw and return the index after the draws they used.

## Model

| member | source | states |
|---|---|---|
| Rules.Age | Viral_Disease_Simulator.py:49-54 | The counter always grows by one. At the recovery time the cell becomes S and draws nothing, whatever it was, even R. Below the recovery time, the cell is R afterwards exactly when it was R, or was I and its death draw says yes. The cell stays I exactly when it was I, is below the recovery time and draws no. It uses one draw exactly when it was I below the recovery time. |
| Rules.Spread | Viral_Disease_Simulator.py:55-59 | Only neighbours susceptible beforehand are infected, and each of them is listed. The walk takes at most one draw per listed neighbour. |
| Rules.SpreadExact | Viral_Disease_Simulator.py:56-59 | Over a neighbour list without repeats, which is what the lookup returns, each neighbour susceptible beforehand takes exactly one draw. That draw is numbered by the susceptible neighbours listed before it, and the neighbour is infected exactly when the draw says yes. The walk uses exactly one draw per susceptible neighbour. |
| Rules.SpreadCount | Viral_Disease_Simulator.py:56-59 | There are no more infections than draws taken. |
| Rules.SpreadNoTarget | Viral_Disease_Simulator.py:56-57 | When no listed neighbour is susceptible, nobody is infected and nothing is drawn. |
| Rules.SpreadAllYes | Viral_Disease_Simulator.py:56-59 | When every draw says yes (virality 1), the infected set is exactly the listed susceptible neighbours. |
| Rules.SpreadAllNo | Viral_Disease_Simulator.py:56-59 | When every draw says no, nobody is infected. |
| Rules.SpreadRename | Viral_Disease_Simulator.py:56-59 | Walking the cell objects or the coordinates they are stored under gives the same infections and uses the same draws, when no cell is stored twice. |
| Cells.Cell.constructor | Viral_Disease_Simulator.py:36-41 | A new cell keeps its position and is S with time 0. |
| Cells.Cell.Infect | Viral_Disease_Simulator.py:43-45 | The cell becomes I with time 0 from any state. |
| Cells.Cell.Process | Viral_Disease_Simulator.py:47-59 | The cell's new state is `Age` of its old one. If it is then infected, each neighbour is (I, 0) when `Spread` over the neighbours susceptible beforehand infects it, and unchanged otherwise. The draw count follows the same two rules. |
| Cells.Propagate | Viral_Disease_Simulator.py:55-59 | The loop over the neighbour list infects exactly `Spread`'s set, leaves every other neighbour unchanged and ends at `Spread`'s draw index. |
| World.Candidate | Viral_Disease_Simulator.py:98-109 | Each of the four positions tried is one lattice step from (x, y). |
| World.AdjacentKeys | Viral_Disease_Simulator.py:95-110 | The lookup returns at most four coordinates, each present and one step away. A candidate is returned exactly when its bound test passes and it is present. |
| World.AdjacentKeysOrder | Viral_Disease_Simulator.py:97-109 | Results come in the order +x, -x, +y, -y, so there are no repeats. |
| World.AdjacentKeysInRange | Viral_Disease_Simulator.py:98-109 | From an in-range position, only in-range positions are returned. |
| World.ProcessAt | Viral_Disease_Simulator.py:47-59 | The keys stay the same. The processed cell gets `Age`. Every other cell is unchanged or was a susceptible neighbour that is now (I, 0). A cell not infected after ageing changes nothing else and draws nothing more. At most five draws are used. |
| World.Pass | Viral_Disease_Simulator.py:112-114 | A step keeps the set of coordinates and uses at most five draws per processed cell. |
| World.PassSnoc | Viral_Disease_Simulator.py:113-114 | One more loop iteration is one more `ProcessAt`, on the map as the earlier iterations left it. |
| World.PassAppend | Viral_Disease_Simulator.py:113-114 | Processing `a + b` is processing `a`, then `b` on the result. |
| World.PassNotListed | Viral_Disease_Simulator.py:113-114 | A cell not processed keeps its state, unless it was S and a neighbour turned it into (I, 0). |
| World.PassCascade | Viral_Disease_Simulator.py:113-114 | A cell infected by a neighbour before its own turn ends the step at time 1, infected or dead. |
| World.PassTimes | Viral_Disease_Simulator.py:112-114 | Each cell is processed once per step. Its time grows by exactly one, unless a neighbour infected it before its turn (it ends at time 1) or after its turn (it ends as (I, 0)). |
| World.PassQuiet | Viral_Disease_Simulator.py:112-114 | A map with no infected cell stays without one and uses no draw. |
| Maps.LookedUpNeighbours | Viral_Disease_Simulator.py:95-110 | When every cell is stored under its own position, the looked-up cells number at most four. They are distinct, stored in the map and each one step away. |
| Maps.StepAgrees | Viral_Disease_Simulator.py:113-114 | The cell-level effect of `Process` on the stored cells is exactly `ProcessAt` on the map's states. |
| Maps.Map.constructor | Viral_Disease_Simulator.py:63-66 | A new map is 150 by 150 and empty, and the class invariant holds. |
| Maps.Map.AddCell | Viral_Disease_Simulator.py:68-70 | The cell is stored under its own position, replacing any earlier one. A new key is appended to the iteration order, and a replaced key keeps its place. The class invariant is kept. |
| Maps.Map.AdjacentCells | Viral_Disease_Simulator.py:95-110 | The result is the stored cells at `AdjacentKeys`, in that order. They number at most four, are distinct, are stored in the map and are each one step away. |
| Maps.Map.ProcessCell | Viral_Disease_Simulator.py:113-114 | Looking up the neighbours and calling `Process` changes the map's states exactly as `ProcessAt` does. |
| Maps.Map.TimeStep | Viral_Disease_Simulator.py:112-114 | The keys, the stored cells and the order are unchanged. The new states and the draw index are `Pass` over the iteration order. |
| Scenarios.PairInfectedFirst | Viral_Disease_Simulator.py:112-114 | Take I(0) at (0,0) inserted before S at (1,0). With the draws no, yes, no, (1,0) is infected and then processed in the same step. Both end at (I, 1), after 3 draws. |
| Scenarios.PairSusceptibleFirst | Viral_Disease_Simulator.py:112-114 | Take the same pair with (1,0) inserted first. (1,0) is infected after its turn and ends at (I, 0). (0,0) ends at (I, 1), after 2 draws. |
| Scenarios.RowCascade | Viral_Disease_Simulator.py:112-114 | In a row of three inserted left to right, the infection crosses the whole row in one step, using 5 draws. |
| Scenarios.LoneCell | Viral_Disease_Simulator.py:47-59 | A cell with no neighbour only ages. |
| Scenarios.Run | Viral_Disease_Simulator.py:112-114 | Several steps in a row keep the set of coordinates. |
| Scenarios.LoneSusceptibleStays | Viral_Disease_Simulator.py:49-52 | An isolated S cell stays S for any number of steps. Its time counts up and it uses no draw. |
| Scenarios.LoneInfectedRecovers | Viral_Disease_Simulator.py:49-54 | A lone I(0) whose death draws all say no ends as (S, 4) after 4 steps. It uses 3 draws. |
| Scenarios.LoneDeath | Viral_Disease_Simulator.py:52-54 | A lone (I, 0) cell whose death draw says yes ends the step as (R, 1), using that one draw. |
| Scenarios.LoneRecovery | Viral_Disease_Simulator.py:49-53 | At the recovery time the cell becomes S without drawing, even if every draw would say yes. |
| Scenarios.OutOfRangeNeighbour | Viral_Disease_Simulator.py:98-103 | At x = 201, the -x neighbour at 200 is returned. Only the moving coordinate is checked, and only on the side it moves towards. |
| Scenarios.EdgeNeighbours | Viral_Disease_Simulator.py:98-109 | At (149, 0), the +x neighbour at 150 and the -y neighbour at -1 are refused even though present. The -x and +y neighbours are returned. |
| Demo.BuildPair | Viral_Disease_Simulator.py:63-70 | Adding (0,0) then (1,0) to a new map gives those two keys, in that order. |
| Demo.PairOnMap | Viral_Disease_Simulator.py:112-114 | Creating two cells, infecting (0,0), adding both and running one `TimeStep` with the draws no, yes, no leaves both cells at (I, 1), after 3 draws. |

## Behaviour kept as the code has it

- The time counter advances on every step for every cell, so a cell never infected
  still counts up. A dead cell also counts up, and becomes S again at the recovery time
  (see `Rules.Age`).
- The `time > 0` test in `process` (line 55) is always true after the increment. The
  model keeps it.
- The neighbour bound test uses the literal 150, not the map's `height` and `width`. It
  checks only the coordinate that moves, and only on the side it moves towards. So a map
  holding cells outside [0, 150) can return them as neighbours
  (`Scenarios.OutOfRangeNeighbour`). From in-range positions only in-range cells come
  back (`World.AdjacentKeysInRange`).
- A time step iterates the dictionary in insertion order, and a replaced key keeps its
  place. Infections take effect during the step, so the outcome of a step depends on that
  order. Compare `Scenarios.PairInfectedFirst` with `Scenarios.PairSusceptibleFirst`: the
  newly infected neighbour ends at time 1 or at time 0, depending on which cell was
  inserted first.

## Left out

- `normpdf` and `pdeath` (lines 8-28) are floating-point numerical integration. Only the
  outcome of the death roll enters the model, as one draw.
- `random.random` (lines 53 and 58) and `virality` (line 31) are left out as
  probabilities. The model says which draws are taken and what each outcome does, but
  nothing about their distribution.
- `Map.display` (lines 72-93) and its call in `time_step` (line 115) are left out. They
  only plot.
- `read_map` (lines 117-125) is left out. It is file input; `Demo.BuildPair` shows the
  `add_cell` sequence it performs.
- The strings "S", "I" and "R" become the datatype `Health`. Staying within those three
  states therefore holds by typing, and the time counter is an unbounded `nat`.
- A cell's `x` and `y` are constants. The code never reassigns them.
- Maps.Map.AddCell: requires the class invariant `Valid()`. The invariant is established
  by the constructor and kept by `AddCell` and `TimeStep`, so every map built with the
  class's own operations meets it.
- Maps.Map.TimeStep: requires `Valid()` for the same reason.
- Maps.Map.ProcessCell: requires that every cell is stored under its own position, which
  `Valid()` includes.
- Cells.Cell.Process: its contract says nothing about a neighbour list that contains the
  processing cell itself. `adjacent_cells` never returns it, since every returned cell is
  one step away.
- Scenarios.Run: only states that the coordinates are kept. Repeated steps are driven
  from outside the core, and this function only chains them for the lone-cell examples.
