# FCTP basis engine and heuristics in Dafny

This project models the core of a Java library of heuristics for the
Fixed-Charge Transportation Problem (FCTP). An instance has m suppliers and
n customers. Supplier i has `supply[i]` units and customer j demands
`demand[j]` units. Every supplier/customer pair has an arc. Arc `i*n + j`
runs from supplier node i to customer node `m + j` and has a unit cost
`tcost` and a fixed cost `fcost`. The fixed cost is paid once the arc
carries any flow.

The model covers:

- **The basis engine (`FCTPbas`).** Arc indexing and capacities, and
  `setBasis`: a Kruskal pass with union-find, a depth-first walk that sets
  the parent array `tree_p`, and a level pass that sets the subtree sizes
  `tree_t`. It also covers the evaluation of one basic exchange (`Chkarc`,
  `SaveOnArc`, `compCostSav`, `getCostSav`) and its execution (`DoMove`):
  the flow moves around the cycle, the stem is reversed and the sizes are
  repaired in three passes.
- **The solution value object (`FCTPsol`).**
- **The local searches and the kick (`FCTPls`).**
- **The greedy constructions (`FCTPgreedy`).**
- **The top-k selection and the weighted random collection (`PEheur`).**
- **The transition rule of the conditional Markov chain search (`CMCS`).**

Every array becomes a `seq`. Objects become immutable datatypes: `Instance`,
`Sol`, `Move` and `Engine` (a solution with the trial and stored moves).
Methods that update an object return the updated value. Loops are modelled
as Dafny loops with invariants; the rest are pure functions.

A valid basis (`Basis.ValidBasis`) means:

- the parent array is a tree rooted at node 0, and every parent link joins
  a supplier and a customer;
- `tree_t` holds the subtree sizes;
- the basic arcs are exactly the tree's links;
- every other arc is `NONBAS0` and carries no flow;
- flows are non-negative and no supplier ships more than it has.

The main theorems:

- `setBasis` succeeds exactly when the arcs with flow form a forest, and
  then builds a basis, which is valid exactly for a valid instance with
  feasible flows.
- The evaluation finds the bottleneck arc of the cycle, and its saving is
  the exact drop of the total cost.
- `DoMove` turns a valid basis into a valid basis, with the entering and
  leaving arcs swapped and every node balance unchanged.
- The local searches end in a local optimum. Each committed move lowers the
  cost by more than the tolerance.
- The greedy constructions deliver a feasible transport on at most
  m + n - 1 arcs. The loaded arcs always form a forest, so the following
  setBasis succeeds and yields a valid basis.

Random draws (`randgen.nextInt`, `ThreadLocalRandom`, `Random.nextDouble`) are
parameters of the model: a function `rand: nat -> nat`, or a drawn value,
reduced modulo the bound the source passes.

## Model

| member | source | states |
|---|---|---|
| FctpData.AllocArcs | Java/FCTPbas.java:213-236 | the tail table maps arc i*n+j to supplier i, and the head table maps it to customer node m+j; every arc a has tail a/n and head m + a%n |
| FctpData.Tail | Java/FCTPbas.java:219-224 | the tail of an arc in range is a supplier node |
| FctpData.Head | Java/FCTPbas.java:219-224 | the head of an arc is a customer node |
| FctpData.ArcBetweenEnds | Java/FCTPbas.java:937-950 | the arc between a supplier and a customer (taken in either order) is an arc in range whose ends are those two nodes |
| FctpData.ArcBetweenUnique | Java/FCTPbas.java:937-950 | an arc is the arc between two adjacent nodes exactly when those are its tail and head |
| FctpData.GetCap | Java/FCTPbas.java:525-531 | without capacities, an arc's capacity is the smaller of its supplier's supply and its customer's demand, and it is positive |
| FctpData.GetCapIJ | Java/FCTPbas.java:539-542 | the capacity of the arc (i, j) is the smaller of supply[i] and demand[j] |
| FctpData.CostNonNeg | Java/FCTPsol.java:128-133 | the total cost of any flow is non-negative |
| FctpData.CostUpdate | Java/FCTPsol.java:128-133 | changing one arc's flow changes the total cost by that arc's cost change and by nothing else |
| FctpData.BalanceUpdate | Java/FCTPbas.java:934-971 | changing one arc's flow by c changes the balance of its two end nodes by c and leaves every other balance alone |
| Construct.NewInstanceAsWritten | Java/FCTPbas.java:274-293 | the data constructor as written: with copying, the demand array stays all zero and the instance is never valid; without copying, the arrays are taken as given |
| Construct.NewInstance | Java/FCTPbas.java:274-293 | the corrected constructor copies the first m, n and m*n entries; the result is valid exactly when the given data is |
| Construct.CopyLoop | Java/FCTPbas.java:280-283 | the copy loop copies the first k entries and leaves the rest of the destination alone |
| Solution.NewSol | Java/FCTPsol.java:84-89 | a fresh solution has arrays sized for m and n, zero flows, NONBAS0 statuses and zero cost |
| Solution.Overwrite | Java/FCTPsol.java:109-119 | with matching m and n the result equals the source in every array and the cost; otherwise the destination is unchanged |
| Solution.Copy | Java/FCTPsol.java:96-102 | the copy constructor yields a solution equal to its source |
| Solution.ComputeCost | Java/FCTPsol.java:128-133 | totalCost becomes the sum of fcost + tcost*flow over the arcs with positive flow; nothing else changes |
| Solution.ReturnCost | Java/FCTPsol.java:135-141 | returns that sum without changing the solution |
| Solution.ComputeCostOf | Java/FCTPsol.java:151-157 | returns the same sum for any flow vector |
| FctpData.FlowCostNonNeg | Java/FCTPsol.java:128-133 | with non-negative fixed and unit costs every prefix of the cost sum, and so the total, is non-negative |
| Solution.CompareTo | Java/FCTPsol.java:181-187 | the result is 1, -1 or 0 exactly when this cost is greater than, less than or equal to the other's |
| Solution.CompareToOrder | Java/FCTPsol.java:181-187 | compareTo is antisymmetric and transitive |
| Solution.EqualTo | Java/FCTPsol.java:194-199 | true exactly when the flow vectors are equal (length and entries) and the costs differ by at most tol |
| Solution.EqualToProps | Java/FCTPsol.java:194-199 | equalTo is reflexive for tol >= 0, and symmetric |
| Solution.ContainedIn | Java/FCTPsol.java:206-214 | true exactly when some pool member is equalTo the solution |
| Solution.DistanceTo | Java/FCTPsol.java:221-227 | Integer.MAX_VALUE on a length mismatch, otherwise the L1 distance of the flow vectors |
| Solution.L1Props | Java/FCTPsol.java:221-227 | the L1 distance is symmetric and non-negative, and zero exactly for equal vectors |
| Solution.BasDistTo | Java/FCTPsol.java:235-241 | Integer.MAX_VALUE on a length mismatch, otherwise the number of arcs whose statuses differ |
| Solution.StatDiffProps | Java/FCTPsol.java:235-241 | that count is symmetric, between 0 and the number of arcs, and zero exactly for equal status arrays |
| Solution.NumBasic | Java/FCTPsol.java:51-59 | returns the size of the set of arcs with status code 1 (BASIC) |
| Solution.CountPositive | Java/FCTPsol.java:42-47 | counts the arcs with positive flow |
| Solution.RelPosFlowAsWritten | Java/FCTPsol.java:41-49 | the truncating integer division collapses the result: 1 exactly when no arc carries flow, 0 exactly when 0 < count < 2(m+n-1) (so 0 for every basic solution with flow), and negative once count >= 2(m+n-1) |
| Solution.RelPosFlow | Java/FCTPsol.java:41-49 | the corrected result is the fraction (m+n-1-count)/(m+n-1), and it lies in [0, 1] |
| Solution.RelPosFlowDiscrepancy | Java/FCTPsol.java:48 | whenever 0 < count < m+n-1, the integer quotient is 0 while the intended fraction is positive |
| UnionFind.FindTree | Java/FCTPbas.java:303-320 | returns the root of the node's tree; the compressed father array is still a forest with the same roots and the same root for every node |
| UnionFind.MergeTrees | Java/FCTPbas.java:330-340 | the root of the smaller tree (ties: the second) hangs below the other root, whose size grows by the other's; the roots lose exactly the hung one, and every node of that tree gets the new root |
| UnionFind.MergeRoot | Java/FCTPbas.java:330-340 | after hanging root b below root a, the nodes of b's tree have root a and all other roots stay |
| Kruskal.SameTreeIffConnected | Java/FCTPbas.java:370-414 | during setBasis two nodes share a union-find root exactly when the chosen basic arcs connect them |
| Kruskal.AcyclicFlowForest | Java/FCTPbas.java:370-390 | arcs with flow that form a forest in any order (no arc joins two nodes the others connect) pass the first loop's index-order test |
| Kruskal.AddFlowArcs | Java/FCTPbas.java:370-390 | the first loop succeeds exactly when the arcs with flow form a forest; then flow-0 arcs are NONBAS0, the others BASIC, and the union-find state matches them |
| Kruskal.JoinPass | Java/FCTPbas.java:399-413 | a pass only turns arcs of its status into BASIC ones, keeps the union-find state, and leaves one tree or no arc of that status joining two trees |
| Kruskal.ChooseBasics | Java/FCTPbas.java:356-416 | succeeds exactly when the flow arcs form a forest; then there are m+n-1 basic arcs, every arc with flow is basic, every other arc is NONBAS0 with zero flow, and the basic arcs connect every node to node 0 |
| Explore.Walk | Java/FCTPbas.java:421-466 | the depth-first walk gives every node other than 0 a parent joined to it by a basic arc, one level above it, down to node 0 at level 0 |
| Levels.SubtreeSizes | Java/FCTPbas.java:470-484 | after the level passes, tree_t[x] is the size of x's subtree, and (tree_p, tree_t) encode a tree rooted at 0 |
| Setup.SetBasis | Java/FCTPbas.java:354-488 | succeeds exactly when the arcs with flow form a forest; on success it builds a basis whose basic arcs are the tree's links, whose arcs with flow are all basic, and which is valid exactly when the instance is valid and the flows are feasible; flows and cost are untouched; on failure only statuses change |
| Setup.GetFlow | Java/FCTPbas.java:551-555 | 0 for a number that is no arc; on a valid basis the flow read back is between 0 and the supply of the arc's supplier (so below Integer.MAX_VALUE), and 0 on every non-basic arc |
| Setup.GetFlowIJ | Java/FCTPbas.java:565-568 | the flow of the arc from supplier i to customer j |
| Setup.SetBasicSolution | Java/FCTPbas.java:576-580 | totalCost becomes the cost of the flows, and setBasis succeeds exactly when the flow arcs form a forest, giving a valid basis for feasible flows |
| Setup.SetBasicSolutionFrom | Java/FCTPbas.java:588-592 | the same after copying the first m*n entries of the given flow array |
| Basis.EncodingOfSizes | Java/FCTPbas.java:484 | a parent array ranked by subtree sizes, with subtree sizes as t, is a tree encoding |
| Basis.SizeFacts | Java/FCTPbas.java:484 | in a valid basis tree_t[0] = m+n, a parent's size exceeds its child's, and only the root has size m+n |
| Basis.FlowBound | Java/FCTPbas.java:660 | every flow of a valid basis is below Integer.MAX_VALUE |
| Evaluate.ChkArc | Java/FCTPbas.java:759-802 | either the tree arc between pred and i becomes the move's leaving arc, or the move is unchanged; no field other than the leaving-arc data changes |
| Evaluate.Walk | Java/FCTPbas.java:859-881 | the walk that advances the end with the smaller or equal tree_t stops at the meet (lowest common ancestor) of the two ends |
| Evaluate.SaveOnArc | Java/FCTPbas.java:814-842 | the saving on one tree arc is the drop of its cost when its flow changes by the given amount |
| Evaluate.CompCostSav | Java/FCTPbas.java:850-912 | the move's entering arc is the given arc, with sign 1, and its apex is a common ancestor of the arc's ends |
| Evaluate.CycleBottleneck | Java/FCTPbas.java:759-802 | the apex is the meet of the ends; the leaving arc is a decreasing arc of the cycle, flow_chg is its flow, fc_out is its fixed cost, and no decreasing cycle arc beats it (smaller flow, or equal flow and larger fixed cost, ties to the one found first) |
| Evaluate.CycleLeaves | Java/FCTPbas.java:850-912 | every non-basic arc's evaluation finds a leaving arc on its cycle, never moving to an upper bound |
| Evaluate.SavingZero | Java/FCTPbas.java:885-910 | a move with no flow change leaves every flow as it is |
| Evaluate.SavingPositive | Java/FCTPbas.java:885-910 | with a positive flow change, the saving accumulated along the cycle equals the old cost minus the new cost |
| Evaluate.SavingIsCostDrop | Java/FCTPbas.java:850-912 | the evaluation's saving is exactly the drop of the total cost the exchange would bring |
| Cycle.Conservation | Java/FCTPbas.java:931-974 | moving the flow around the cycle leaves every node's balance unchanged |
| Cycle.EnteringArcFlow | Java/FCTPbas.java:932-934 | the entering arc's flow changes by sign * flow_chg |
| Cycle.TailArcFlow | Java/FCTPbas.java:935-953 | a tree arc on the tail side moves by flow_chg in the direction of its orientation |
| Cycle.HeadArcFlow | Java/FCTPbas.java:955-974 | a tree arc on the head side moves by flow_chg against its orientation |
| Cycle.OffCycleFlow | Java/FCTPbas.java:931-974 | an arc off the cycle keeps its flow |
| Cycle.ArcAfterMove | Java/FCTPbas.java:931-974 | after the evaluated move all flows stay non-negative, and non-basic arcs other than the entering one keep their flow |
| Cycle.LeavingArcEmptied | Java/FCTPbas.java:925-950 | the leaving arc's flow drops to zero |
| Pivoting.PushLoop | Java/FCTPbas.java:935-953 | the loop over the path from a node to the apex adds or subtracts delta on each tree arc by its orientation |
| Pivoting.ReverseStem | Java/FCTPbas.java:991-1000 | the stem loop reverses the parent links from u to the leaving node and hangs u below v, ending at the leaving node |
| Pivoting.AddOnPath | Java/FCTPbas.java:1007-1012 | the loop adds the amount to tree_t of exactly the nodes on the path from j up to the apex, excluding the apex |
| Pivoting.StemSizes | Java/FCTPbas.java:1023-1035 | the middle pass gives each stem node its size in the rewired tree |
| Reroot.NewRanked | Java/FCTPbas.java:976-1000 | the rewired parent array is again a tree rooted at 0 |
| Reroot.NewPathIsPath | Java/FCTPbas.java:976-1000 | in the rewired tree each node's path to the root goes down the stem and then up from v |
| Reroot.NewSizes | Java/FCTPbas.java:1002-1044 | the subtree sizes of the rewired tree are the sizes the three passes compute |
| Rewire.NewBipartite | Java/FCTPbas.java:976-1000 | in the rewired tree every parent link still joins a supplier and a customer |
| Rewire.NewEdges | Java/FCTPbas.java:976-1000 | the links of the rewired tree are the old links without the leaving arc, plus the entering arc |
| BasisExchange.TreeAfterValid | Java/FCTPbas.java:976-1044 | the repaired parent and size arrays encode a tree whose links are the old ones with the leaving arc swapped for the entering arc |
| BasisExchange.ExchangeValid | Java/FCTPbas.java:917-1046 | carrying out an evaluated exchange turns a valid basis into a valid basis |
| BasisExchange.MoveFlows | Java/FCTPbas.java:931-974 | the two path loops produce the flows of the move around the cycle |
| BasisExchange.DoMove | Java/FCTPbas.java:917-1046 | the result is a valid basis; the entering arc turns BASIC and the leaving arc NONBAS0, with every other status unchanged; flows move around the cycle; totalCost drops by the saving; the arrays encode the exchanged tree |
| MoveEngine.GetCostSav | Java/FCTPbas.java:700-705 | a basic arc yields 0 and nothing is evaluated; a non-basic arc's evaluation becomes the trial move, and the result is the drop of the total cost |
| MoveEngine.GetCostSavIJ | Java/FCTPbas.java:712-717 | an out-of-range id yields 0 and changes nothing; a non-zero result is the cost drop of an in-range non-basic arc |
| MoveEngine.DegenerateIffNoFlowChange | Java/FCTPbas.java:736-739 | isDegenerated holds exactly when carrying out the trial move leaves every flow unchanged |
| MoveEngine.LeavingArcBasic | Java/FCTPbas.java:745-748 | getLeavingArc returns a basic arc other than the entering one |
| MoveEngine.RememberMove | Java/FCTPbas.java:728-731 | the stored move becomes the trial move; nothing else changes |
| MoveEngine.CommitStored | Java/FCTPbas.java:917-1046 | DoMove on the stored move: the flows move by the stored move and totalCost drops by its saving; statuses follow the trial move's out_arc test as written |
| MoveEngine.ExecuteMove | Java/FCTPbas.java:719-723 | evaluates, remembers and commits one arc: the result is a valid basis with the same balances, entering and leaving statuses swapped, and cost and totalCost lower by the saving |
| LocalSearch.Commit | Java/FCTPls.java:84-88 | committing the stored move keeps a valid basis and the node balances, and lowers the cost by that arc's cost drop |
| LocalSearch.BestPass | Java/FCTPls.java:69-83 | a pass finds an improvement exactly when the solution is not a local optimum; then the stored arc's drop exceeds tol, is the largest, and comes strictly before any equal drop in id order |
| LocalSearch.BestAccept | Java/FCTPls.java:63-91 | ends in a local optimum; iterCount counts the commits, each of which lowered the cost by at least tol+1, keeping the balances and the totalCost gap |
| LocalSearch.FirstRound | Java/FCTPls.java:103-119 | one step of the first-accept loop either lowers the cost or counts one more arc without a commit |
| LocalSearch.FirstAccept | Java/FCTPls.java:98-121 | ends in a local optimum, with iterCount = commits + 1 and each commit lowering the cost by more than tol |
| LocalSearch.Run | Java/FCTPls.java:128-135 | FIRST_ACCEPT and BEST_ACCEPT run the matching search; any other value leaves solution and count alone |
| Kick.KickCount | Java/FCTPls.java:154-161 | a given count is kept; otherwise 3 when (m+n-1)/5 <= 5, and a value in [5, (m+n-1)/5] when it is larger |
| Kick.Kick | Java/FCTPls.java:145-176 | the entered arcs are distinct and were non-basic; arcs never drawn stay non-basic; a valid basis and the balances are kept; the kick completes exactly when enough non-basic arcs exist |
| Kick.KickKeeps | Java/FCTPls.java:164-174 | one exchange with swap-with-last removal keeps the list of non-basic arcs not yet entered |
| Kick.KickExhausted | Java/FCTPls.java:164-174 | once the list runs empty every arc that was non-basic at the start has entered |
| Kick.NonBasicsListed | Java/FCTPls.java:148-151 | the list built by the first loop has as many entries as there are non-basic arcs |
| Kick.RandOrder | Java/FCTPls.java:608-620 | the result is a permutation of 0..dim-1 |
| Kick.PermutationMembers | Java/FCTPls.java:608-620 | a permutation of 0..dim-1 lists each of these numbers once and nothing else |
| Lists.RemoveSwapMembers | Java/FCTPgreedy.java:112-113 | removing by swapping in the last entry drops exactly the entry at the index |
| Lists.DistinctCard | Java/FCTPls.java:173 | a duplicate-free list has as many members as entries |
| FctpGreedy.GreedyValue | Java/FCTPgreedy.java:37-52 | the value is infinite (Double.MAX_VALUE) exactly when rs or rd is 0, and otherwise non-negative |
| FctpGreedy.MeasuresCompared | Java/FCTPgreedy.java:44-50 | the remaining-capacity measures are at least as large as the capacity measures, and equal when both ends can fill the arc |
| FctpGreedy.Start | Java/FCTPgreedy.java:64-77 | the remaining amounts are the full amounts, every node is active and every flow is zero, so the loaded arcs are a forest with one active node per tree |
| FctpGreedy.Saturate | Java/FCTPgreedy.java:105-113 | one round puts flow on an arc that had none, exhausts one of its ends, changes no other arc, shortens the active lists and keeps the invariant; if the loaded arcs were a forest with at most one active node per tree, they still are |
| FctpGreedy.RoundForest | Java/FCTPgreedy.java:105-113 | the round's two ends are active, so they lie in different trees of the loaded arcs; loading the arc joins those trees and exhausts one end, so the loaded arcs stay a forest and no two distinct active nodes become connected |
| FctpGreedy.SaturateKeeps | Java/FCTPgreedy.java:105-113 | the same facts about one round, stated as a lemma about the pure round function |
| FctpGreedy.GreedyChoice | Java/FCTPgreedy.java:86-104 | the chosen pair has the least evaluation, and every pair before it in scan order has a strictly larger one |
| FctpGreedy.EvalRange | Java/FCTPgreedy.java:197-211 | min_val and max_val bound every evaluation and are attained |
| FctpGreedy.CandidateList | Java/FCTPgreedy.java:212-224 | the list holds exactly the codes i*nn+j of pairs whose evaluation is within the threshold |
| FctpGreedy.RandGreedyChoice | Java/FCTPgreedy.java:196-232 | the drawn pair is active and within min_val + alpha*(max_val - min_val) + tol |
| FctpGreedy.CandidatesAtZero | Java/FCTPgreedy.java:167-173 | with alpha = 0 and no tolerance, every candidate has the least evaluation |
| FctpGreedy.CandidatesAtOne | Java/FCTPgreedy.java:167-173 | with alpha = 1 every active pair is a candidate |
| FctpGreedy.Finished | Java/FCTPgreedy.java:84-114 | once a list is empty the flows are feasible and within capacities; they meet every demand when supply suffices, ship every supply when demand absorbs it, and use at most m+n-1 arcs |
| FctpGreedy.Delivered | Java/FCTPgreedy.java:84-114 | the same conclusion read from the invariant at loop exit |
| FctpGreedy.Greedy | Java/FCTPgreedy.java:62-119 | the flows are such a transport; totalCost is their cost; they form a forest, so setBasis always succeeds and gives a valid basis |
| FctpGreedy.RandSol | Java/FCTPgreedy.java:126-165 | the same for random pairs: a basic feasible solution with setBasis always succeeding |
| FctpGreedy.RandGreedy | Java/FCTPgreedy.java:174-244 | the same for pairs drawn from the restricted candidate list: a basic feasible solution with setBasis always succeeding |
| PEheur.MaxKIdx | Java/PEheur.java:380-401 | returns k slots: the best min(len, k) indices in order (greater value first, earlier index on ties), then -1; every unselected index ranks below every selected one |
| PEheur.TopKUnique | Java/PEheur.java:380-401 | that description has exactly one solution |
| PEheur.TopKFacts | Java/PEheur.java:386-399 | the selected values do not increase, the selected indices are distinct, and there is no -1 when the array has at least k entries |
| PEheur.ArcCostsFromArray | Java/PEheur.java:467-476 | each arc with positive flow gets its evaluation, every other arc gets 0 |
| PEheur.PicksArcsInUse | Java/PEheur.java:467-476 | when an in-use arc with positive evaluation is left out of the top k, every picked arc is in use and evaluates at least as high |
| PEheur.NewCollection | Java/PEheur.java:176-185 | a new collection is empty with total 0 and satisfies the collection invariant |
| PEheur.MaxOf | Java/PEheur.java:188-190 | the maximum is an element and bounds all elements |
| PEheur.SetMaxVal | Java/PEheur.java:188-190 | max_val becomes the largest evaluation; the entries stay |
| PEheur.Add | Java/PEheur.java:193-199 | an effective weight <= 0 changes nothing; otherwise the item is appended, the keys are kept and extended, the new entry's weight is the effective weight, and total grows by it |
| PEheur.WeightKept | Java/PEheur.java:193-199 | later additions keep the weights of earlier entries |
| PEheur.Next | Java/PEheur.java:202-205 | returns the first entry whose key exceeds u*total |
| PEheur.NextInterval | Java/PEheur.java:202-205 | next returns entry p exactly when u*total falls in [lower key, key of p), an interval as wide as p's weight |
| PEheur.GetRandomCollection | Java/PEheur.java:215-231 | the entries are exactly the non-basic arcs with positive effective weight, in increasing order, each with that weight; total is the sum of these weights |
| Cmcs.ComponentToIdx | Java/CMCS.java:32-34 | the map sends each listed component to its last position, and has no other keys |
| Cmcs.IndexOfUnique | Java/CMCS.java:32-34 | that description fixes the map |
| Cmcs.SetNextComponent | Java/CMCS.java:124-143 | the next component is components[i] for the first true entry i of the success or failure row, the current one when the row has none, and a failure for an unlisted component |
| Cmcs.NextListed | Java/CMCS.java:124-143 | a listed component is followed by a listed component |
| Cmcs.WalkStaysListed | Java/CMCS.java:66-91 | starting from a listed component, any run of outcomes keeps the current component listed |

## Left out

- File and parameter I/O is not modelled: the instance reader, FCTPparam, FCTPperfm, FCTPmain and all Python code.
- The metaheuristics are not modelled because they only orchestrate the engine: ILS, SA, RTR, GLS, VNS, GRASP, TS, the PEheur strategies, FCTPpop, CMCS.Solve and RL_composite. `Cmcs.WalkStaysListed` states only the component-transition part of CMCS.Solve.
- The network-simplex helper under FCTPutil is not part of this model.
- Costs, savings and the tolerance `tolval` are integers. The source uses doubles, which introduces rounding error; integers make "saving > tol" lower the cost by at least tol + 1, so the sweeps terminate.
- Greedy values, top-k arrays and random-collection weights are reals. NaN, infinite array entries and rounding are not modelled; Double.MAX_VALUE is an `Infinite` value.
- Arc capacities (`cap`) are never set in the code, so they are absent. getCap is min(supply, demand), status NONBASU never arises, and moves never go to an upper bound.
- Java int overflow (for example i*n in arc ids) is not modelled. A valid instance keeps every supply and flow below Integer.MAX_VALUE (`Basis.FlowBound`).
- The explicit stack capacity of setBasis's walk (the reused size array) is not modelled; the walk uses an unbounded sequence.
- Explore.Walk: is given the depth array Java reuses from the union-find father array as an input; every reached node's entry is overwritten, and all nodes are reached.
- MoveEngine.CommitStored: the branch at the head of DoMove tests the trial move's out_arc, not the stored move's, and the model keeps that test. In LS_best_acc the trial move at commit time belongs to the last arc scanned, not to the stored one. The branch still never differs: on a valid basis every evaluation of a non-basic arc finds a leaving arc (`Evaluate.CycleLeaves`), so the trial move's out_arc is at least 0 whenever DoMove runs. `LocalSearch.Commit` requires exactly that, `LocalSearch.BestPass` establishes it for LS_best_acc, and LS_first_acc commits right after evaluating the same arc.
- LocalSearch.FirstAccept: accepts any start arc in [0, narcs). The source draws it from [0, narcs - 2], and nextInt throws when narcs = 1.
- Kick.Kick: when fewer non-basic arcs exist than requested, the source's nextInt(0) throws. The model stops with ok = false instead.
- The searches' random draws and the time budgets are inputs. `ThreadLocalRandom` and `randgen` are the functions `rand`.
- FctpGreedy.RandGreedy: requires alpha >= 0 and tolval >= 0; the parameters setter keeps tolval non-negative.
- The constructions, the searches and the engine require a valid instance: m, n >= 1, matching array lengths, supplies and demands positive and below Integer.MAX_VALUE, and non-negative costs.
- PEheur.MaxKIdx: requires k >= 0. A negative k makes the Java array allocation throw.
- Cmcs.SetNextComponent: requires square transition matrices over the listed components. The constructor takes their shape as given.
- PEheur.GetRandomCollection: requires a non-empty evaluation array when small is better, because set_max_val's stream throws on an empty array.
- Setup.SetBasis: the non-basic passes run over the NONBASU status and then NONBAS0; the NONBASU pass finds no arc since NONBASU never arises.

## Findings

| source | as written | input that shows it | evidently intended | confidence | as-written member | corrected member |
|---|---|---|---|---|---|---|
| Java/FCTPbas.java:282 | the demand copy loop is `for (j=0; j<j; j++)`, which never runs, so with copyDat the demand array stays all zero | m = n = 1, supply [5], demand [5], copyDat = true: demand becomes [0] and the instance is no longer valid | copy the first n demands, as the other three loops copy theirs | high (not executed) | Construct.NewInstanceAsWritten | Construct.NewInstance |
| Java/FCTPsol.java:48 | `(n+m-1 - count)/(n+m-1)` divides two ints before widening to double, so while fewer than 2(m+n-1) arcs carry flow (as in every basic solution) the result is 0 or 1, and from 2(m+n-1) arcs on it is negative | m = n = 2 with one arc carrying flow: the result is 0 instead of 2/3 (`Solution.RelPosFlowDiscrepancy` with N = 3, c = 1) | the real fraction of the m+n-1 basic positions without flow | high (not executed) | Solution.RelPosFlowAsWritten | Solution.RelPosFlow |
