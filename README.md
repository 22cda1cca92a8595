# Dollar game: a verified model of the chip-firing core

The dollar game is played on a connected undirected graph. Every node holds an
integer number of dollars, and a negative number means the node is in debt. A
node can *give*: it sends one dollar along each of its edges. A node can also
*take*: it receives one dollar along each of its edges. The game is won when no
node is in debt.

The board (`DGGraph`) keeps three counters in step with the graph:

- the genus `|E| - |V| + 1`;
- the bank, which is the sum of all values;
- the debt, which is the sum of the negative values.

Around the board there are:

- a randomized greedy solver (`solve`, `find_best`);
- the folding of a play into one net count per node (`collapse_moves`);
- the rendering of that count as instructions (`show_instruction`);
- a generator of starting values with a given bank (`random_list_of_values`);
- the in-game console (`Commands`), which parses command lines, keeps a log and
  a history, writes help text and lays out solution steps.

The project has seven modules:

| module | file | contents |
|---|---|---|
| `Wrappers` | `wrappers.dfy` | `Option` and `Result` |
| `Chips` | `chips.dfy` | the chip-firing algebra, on values |
| `DollarGraph` | `dggraph.dfy` | the board class |
| `Solver` | `solver.dfy` | recording, collapsing, solving and showing plays |
| `Generator` | `generator.dfy` | starting values |
| `Text` | `text.dfy` | whitespace and separator splitting, joining, decimal numerals |
| `CommandTable`, `Console` | `commands.dfy` | the console |

The board and the console are classes whose methods update their fields. The
algorithms that loop in the source are methods with loop invariants, and each
is proved against a specification function:

- the neighbour loop of take and give (`Spread`);
- the greedy playout (`PlayGreedily`);
- the best-of-N search (`FindBest`);
- the instruction listing (`ShowInstruction`);
- the rebalancing loop, on an array (`BalanceInPlace`);
- command parsing (`Process`), logging (`Log`) and line layout (`SpecialJoin`).

Randomness is passed in as parameters:

- the solver gets a sequence of picks, which are indices into the node list;
- the generator gets the drawn values and one index pair per balancing step.

The board class exists twice in the repository: graph.py holds the current
copy and Graph.py an earlier one. Their constructor, mutators, update helpers,
take, give and victory test have the same code (Graph.py:7-78 against
graph.py:35-107). One class models both, and the table below cites graph.py
for them.

## Model

| member | source | states |
|---|---|---|
| DollarGraph.DGGraph.constructor | graph.py:35-40 | A new board is empty, with genus 1, bank 0 and debt 0, and satisfies the board invariant. |
| DollarGraph.DGGraph.Copy | graph.py:224 | The deep copy each solver attempt starts from has the same nodes, values, edges and counters, and keeps the invariant. |
| DollarGraph.DGGraph.IsConnected | graph.py:43-46 | True exactly when the board has a node and every node reaches every other node by a walk. An empty board is not connected. |
| DollarGraph.SingleConnected | graph.py:43-46 | A one-node board is connected. |
| DollarGraph.IsolatedDisconnects | graph.py:43-46 | A node with no edges, on a board with another node, makes the board disconnected. |
| DollarGraph.ConnectedGrows | graph.py:67-69 | Adding an edge never disconnects a connected board. |
| DollarGraph.DGGraph.AddNode | graph.py:49-53 | Inserts the node at the end of the node order, or overwrites its value if present. The edges stay as they were, and genus, bank and debt are recomputed to satisfy the invariant. |
| DollarGraph.DGGraph.AddNodesFrom | graph.py:55-56 | Changes nothing. |
| DollarGraph.DGGraph.AddEdgesFrom | Graph.py:27-31 | Changes nothing; in both copies of the class the bulk adders are empty. |
| DollarGraph.DGGraph.RemoveNode | graph.py:61-65 | Raises exactly when the node is absent, and then nothing changes. Otherwise the node leaves the order, the value map and every incident edge, and the invariant holds again. |
| DollarGraph.WithoutContents | graph.py:61-65 | Removing a node from the order keeps the order duplicate-free and drops exactly that node. |
| DollarGraph.DGGraph.AddEdge | graph.py:67-69 | Adds the unordered edge. Nodes, values, bank and debt stay unchanged, and the genus is recomputed. |
| DollarGraph.DGGraph.RemoveEdge | graph.py:71-73 | Raises exactly when the edge is absent, and then nothing changes. Otherwise only that edge goes. Values, bank and debt never change. |
| DollarGraph.DGGraph.ChangeValue | graph.py:75-78 | Raises exactly when the node is absent. Otherwise exactly one value moves by +1 or -1, the bank moves by the same amount, and the graph and genus stay unchanged. |
| DollarGraph.DGGraph.UpdateGenus | graph.py:80-81 | Sets the genus to the edge count minus the node count plus one. |
| DollarGraph.DGGraph.UpdateBank | graph.py:83-84 | Sets the bank to the sum of the values, in node order. |
| DollarGraph.DGGraph.UpdateDebt | graph.py:86-88 | Sets the debt to the sum of the negative values. |
| DollarGraph.GenusCountsNodes | graph.py:80-81 | For a valid board, the stored genus equals the edge count minus the number of valued nodes plus one. |
| DollarGraph.DebtNonPositive | graph.py:86-88 | The stored debt is never positive. |
| DollarGraph.Spread | graph.py:93-96 | Walking the neighbour list, each neighbour loses c and the node gains c for each neighbour. The result equals firing the node c times. |
| DollarGraph.DGGraph.Take | graph.py:92-97 | The node gains its degree and every neighbour loses one. The graph, genus and bank stay unchanged, and the debt is recomputed. |
| DollarGraph.DGGraph.Give | graph.py:99-104 | The node loses its degree and every neighbour gains one. The graph, genus and bank stay unchanged, and the debt is recomputed. |
| DollarGraph.DGGraph.IsVictory | graph.py:106-107 | True exactly when the debt is 0, and exactly when no value is negative. |
| Chips.FireConserves | graph.py:92-104 | Firing a node any number of times keeps the sum of all values. This is why take and give keep the bank without recomputing it. |
| Chips.PlayConserves | graph.py:92-104 | Any sequence of takes and gives keeps the sum of all values. |
| Chips.TakeGiveInverse | graph.py:92-104 | Take then give at the same node restores every value, and so does give then take. |
| Chips.FireAdd | graph.py:92-104 | Firing a node a times and then b times is firing it a + b times. |
| Chips.FireCommute | graph.py:92-104 | Firings of any two nodes commute. |
| Chips.DebtZeroIff | graph.py:86-88 | The sum of the negative values is at most 0, and equals 0 exactly when no value is negative. |
| Chips.CollapseMeaning | graph.py:196-203 | In the collapsed map, the keys are exactly the nodes the play touches, in order of first appearance, and zero entries are kept. Each entry is the number of takes minus the number of gives at that node. |
| Chips.CollapseCountBound | graph.py:202 | The collapsed move count, the sum of the absolute entries, lies between 0 and the number of moves. |
| Chips.FireAllCollapsed | graph.py:196-203 | Firing each key of the collapsed map by its entry, in key order, gives the same board as the play. |
| Chips.ReplayCollapsed | graph.py:196-203 | Replaying the collapsed map gives the same values as the original play: entry times take for a positive entry, minus entry times give for a negative one. |
| Solver.NodeGives | graph.py:15-22 | The node gives, and (node, give) is appended to the moves. The board stays valid and the bank unchanged. |
| Solver.NodeTakes | graph.py:24-31 | The node takes, and (node, take) is appended to the moves. The board stays valid and the bank unchanged. |
| Solver.CollapseMoves | graph.py:196-203 | The loop builds the collapsed map of the moves: keys in first-appearance order, exactly the touched nodes, each entry takes minus gives. The count is the sum of absolute entries, between 0 and the number of moves. |
| Solver.GreedyMove | graph.py:209-215 | At a picked node the solver gives when the value is positive and takes when it is negative. At a zero it does nothing. |
| Solver.PlayGreedily | graph.py:207-217 | The loop applies the greedy move at each pick and stops at the first victory. The board is the replay of the moves applied, and the moves are the playout, or none if the picks run out. |
| Solver.Solve | graph.py:206-217 | The graph stays valid with unchanged nodes and edges. The result is the collapsed play with its count, exactly when the playout wins within the picks. The board is then the board after that play. |
| Solver.PlayoutSound | graph.py:206-217 | A finished playout gives only from positive nodes and takes only at negative ones, and ends on a won board. |
| Solver.SolutionWins | graph.py:206-217 | Replaying the solution that solve returns wins the game. |
| Solver.SolutionCount | graph.py:217 | The count solve reports is at most the number of moves the playout made. |
| Solver.FindBest | graph.py:220-229 | Each attempt solves an untouched copy. With no attempts the result is (None, infinity), even on an empty board. With attempts on a board with no nodes the result is NoNodes, the IndexError of picking from no nodes. Otherwise it is Diverged exactly when the picks given to some attempt run out before it wins. Failing that, it is the solution of an attempt whose count is no larger than any other's and strictly smaller than every earlier one's (ties keep the earliest). |
| Solver.BestStep | graph.py:226-228 | The strict comparison keeps the earliest of equal minima as more attempts are seen. |
| Solver.SolveCopy | graph.py:224-225 | Solving a deep copy returns that attempt's solution from the original values. |
| Solver.Symbol | graph.py:234-235 | With arrows, take is one left arrow and give one right arrow. Otherwise they are " take" and " give". Neither starts with a digit or a minus sign. |
| Solver.ShowInstruction | graph.py:232-241 | The loop yields the listing of the collapsed map. |
| Solver.NonzeroShape | graph.py:236-240 | The nodes shown are exactly the map's keys with a nonzero entry, and each appears once. |
| Solver.NonzeroAppend | graph.py:236 | Selecting nonzero keys works piece by piece, so the shown nodes keep the map's order. |
| Solver.NonzeroOne | graph.py:237-240 | A single key is shown exactly when its entry is nonzero. |
| Solver.ShownLines | graph.py:236-240 | The listing has one line per nonzero entry, in map order, and zero entries are skipped. Each line is the node, the take symbol for a positive entry or the give symbol for a negative one, and the absolute entry in parentheses. |
| Solver.InstructionRoundTrip | graph.py:238-240 | Every instruction line reads back as its node and its signed nonzero count, so distinct entries give distinct lines. |
| Generator.ShiftSum | graph.py:145-147 | One balancing step moves the total by exactly one toward the bank, whatever indices are drawn, equal ones included. |
| Generator.BalanceSum | graph.py:144-147 | k steps move the total by k in the step direction. |
| Generator.BalanceReachesBank | graph.py:142-147 | As many steps as the distance from the bank bring the total to the bank. |
| Generator.BalanceInPlace | graph.py:143-147 | The in-place loop leaves the array equal to the balanced values. |
| Generator.FixUpAsWritten | graph.py:148-150 | The transfer as written keeps the length and changes only the first and last values. It leaves a board that has a negative value untouched. |
| Generator.FixUpAsWrittenSum | graph.py:148-150 | The transfer as written lowers the total of a non-negative board by its first value, and keeps the total otherwise. |
| Generator.FixUpAsWrittenMissesBank | graph.py:148-150 | With values [1, 0] and bank 1 the written transfer yields [2, -2], whose total is 0, not the bank. |
| Generator.FixUp | graph.py:148-150 | The corrected transfer reads the maximum once. It keeps the length, changes only the first and last values, and leaves a board that has a negative value untouched. |
| Generator.FixUpSum | graph.py:148-150 | The corrected transfer keeps the total. |
| Generator.FixUpAsWrittenInPlace | graph.py:148-150 | The in-place transfer, which reads the maximum again after the first value has grown, leaves the array equal to the transfer as written. |
| Generator.FixUpInPlace | graph.py:148-150 | The corrected in-place transfer leaves the array equal to the corrected transfer. |
| Generator.Max | graph.py:149 | The maximum is at least every value and is one of them. |
| Generator.Balanced | graph.py:141-147 | Copying the drawn values into an array and running the balancing loop gives the balanced values, whose total is the bank. |
| Generator.RandomListOfValues | graph.py:140-151 | No nodes: the generator fails. Otherwise the result is the transfer as written applied to the balanced values, which total the bank. The result totals the bank minus the first balanced value when no balanced value is negative, and the bank otherwise. |
| Generator.RandomListOfValuesCorrected | graph.py:140-151 | The generator with the corrected transfer: no nodes, no result. Otherwise it gives one value per node, totalling exactly the bank. |
| Console.TableArityParse | commands.py:13-34 | For every command of the table, a line whose tokens are the command and arguments not starting with '-' is refused with that command's table arity when the count differs from a fixed arity. Otherwise it yields exactly those arguments and no options. |
| Console.PlainParams | commands.py:22-26 | Tokens none of which starts with '-' are all arguments, in order, and give no option. |
| CommandTable.TableKeys | commands.py:172-215 | The command table and its key set hold the seven command names. |
| Console.Commands.constructor | commands.py:9-11 | A new console has an empty log, an empty history and the command table. |
| Console.Commands.Process | commands.py:13-34 | The loop parses the line. |
| Console.ParseAccepted | commands.py:13-34 | An accepted line starts with a known command. Its argument count fits the command (or the command takes any count). Arguments do not start with '-' and options do. Every later token is an argument or an option. |
| Console.ParseTyped | commands.py:13-34 | A known command followed by space-separated tokens either yields the command, the non-option tokens in order and the option tokens as a set, or raises the arity error with the needed and given counts. |
| Console.HelpAnyArity | commands.py:30-34 | help followed by any tokens is always accepted. |
| Console.ParamsSnoc | commands.py:22-26 | One more token joins the options when it starts with '-', and is appended to the arguments otherwise. |
| Console.ParamsCover | commands.py:20-26 | Every token that does not start with '-' is an argument, and every argument is one of the tokens. |
| Console.ParamsAppend | commands.py:22-26 | Arguments keep input order: the arguments of two token runs are the first run's, then the second's. |
| Console.Commands.Log | commands.py:36-41 | Appends the message's '&'-separated pieces in order (the whole message when it has no '&'). Earlier lines and the history are unchanged. |
| Console.LogShowsMessage | commands.py:36-41 | After logging, the earlier lines are intact. The new lines joined by '&' give back the message, and there is one more line than the message has '&'. |
| Console.Commands.LastCommand | commands.py:43-46 | The last history entry, or '' when the history is empty. |
| Console.LastAfterEntry | commands.py:43-46 | After an entry is added to the history, it is the last command. |
| Console.Commands.SpecialJoin | commands.py:129-135 | The loop yields the actions in groups of four, each action after two spaces, one group per console line. |
| Console.SpecialStep | commands.py:132-134 | Each action is preceded by '&' plus two spaces when its index is positive and divisible by four, and by two spaces otherwise. |
| Console.GroupsShape | commands.py:129-135 | All groups but the last hold four actions. The last holds one to four (none only for no actions). Together they are the actions in order. |
| Console.SpecialJoinLines | commands.py:129-135 | When logged, the joined text shows exactly one console line per group. |
| Console.Help | commands.py:71-84 | With '-yourself' the reply is "ok, boomer". For an unknown name it is exactly the unknown-command error that processing that name raises. For a known name it starts with the command's description. |
| Console.Message | commands.py:17 | Both KeyErrors start with "[ERROR] " and quote the command's name. The unknown-command text is the name framed by fixed text. The arity text has the name right after the opening quote. |
| Console.UnknownMessageNames | commands.py:17 | Different unknown names give different error texts. |
| Console.HelpLines | commands.py:76-80 | Help for a known command, when logged, shows the description lines, the separator line, then the example lines. |
| Console.HelpListingLines | commands.py:73-74 | Help without arguments, when logged, shows the two header lines, then one command per line, each but the last followed by a comma. |
| Text.WordsOfJoin | commands.py:14 | Splitting space-joined words on whitespace gives back the words. |
| Text.JoinSplitOn | commands.py:38 | Joining the pieces of a '&'-split by '&' gives back the text. |
| Text.SplitOnJoin | commands.py:38 | Splitting on '&' a '&'-join of pieces without '&' gives back the pieces. |
| Text.SplitOnCount | commands.py:38 | A split gives one more piece than there are separators. |
| Text.IntRoundTrip | graph.py:238 | A decimal rendering of an integer parses back to that integer. |

## Left out

- Drawing, sound and animation are not part of this model. This covers `print` output, `play_sfx` and the Bezier curves that `node_gives`/`node_takes` queue. They are I/O, so only the move-list part of those helpers is modelled.
- Node positions (`pos`) and the graph's `info` attributes are not modelled, because nothing in the game logic reads them.
- The graph library's internals are abstracted:
  - the node dictionary is an insertion-ordered list plus a value map;
  - an edge is an unordered pair;
  - connectivity is reachability by walks.
- `DollarGraph.DGGraph.AddEdge` requires both endpoints on the board and distinct. The library would silently create a missing endpoint without a value, or add a self-loop.
- `DollarGraph.DGGraph.Take` and `DollarGraph.DGGraph.Give` require the node to be on the board. The library raises for an unknown node.
- `DollarGraph.DGGraph.RemoveNode`, `RemoveEdge` and `ChangeValue` model the raised error as a `raised` flag with the board left unchanged. The error's type and text are not modelled.
- Default arguments become explicit parameters, and no behaviour is lost: `add_node(val=0)` (graph.py:49), `change_value(increase=True)` (graph.py:75), `random_list_of_values(bank=0)` (graph.py:140), `show_instruction(arrows=True)` (graph.py:232), and `find_best(N=10)` (graph.py:220), where N is the length of the attempts list.
- Random draws are parameters:
  - the node picks of each solver run;
  - the generator's drawn values and index pairs.
- `Solver.Solve`: the source loops until a victory and may never stop. The model follows a given finite sequence of picks and reports no solution when they run out. That is a partial-correctness statement.
- `Solver.FindBest` reports `Diverged` when the picks given to some attempt run out before that attempt wins. The source would keep drawing for that attempt, so it may still return later, or it may loop forever.
- `Solver.Solve`: on a board with no nodes the source raises IndexError when it picks a node (graph.py:209). No pick is valid then, so the model returns no solution, as when the picks run out. `Solver.FindBest` does report this case, as `NoNodes`.
- `Solver.CollapseMoves` returns the collapsed map as an insertion-ordered key list plus a count map, the order a Python dict keeps. Moves are passed and returned as values rather than appended in place (`NodeGives`, `NodeTakes`).
- Values are unbounded integers. The generator's 64-bit numpy integers and their overflow are not modelled.
- `Console.Help`: the command-name listing iterates a Python set, whose order is unspecified. The listing order is a parameter, constrained to list every command exactly once.
- `Console.Commands.Process`:
  - a blank line raises IndexError in the source; it is the `NoInput` error here;
  - both KeyErrors are the `UnknownCommand` and `WrongArity` errors, carrying the same message text;
  - the debug `print` of the arguments is left out.
- The command table keeps each entry's description, arity and examples. The `function` entry of each command points to file-handling code (delete, reset, change, stats, solution) that is left out as file and clock I/O. So are `to_integer`, `load_game`, `get_random_game`, `generate_game`, `random_connected_graph` and `transform_positions`, which are random sampling, planarity testing, layouts and floating point.
- The console history is only read (`LastCommand`). What appends to it lives in the GUI code, which is not part of this model.
- `Text.Words` is the whitespace split of `str.split()` over the characters Python treats as whitespace. Unicode normalisation is not modelled.

## Findings

| source | as written | input that shows it | evidently intended | confidence | as-written member | corrected member |
|---|---|---|---|---|---|---|
| graph.py:148-150 | `a[0] += max(a)` then `a[-1] -= max(a)`: the second maximum is read after `a[0]` has grown, so the last node loses more than the first gained | initial values [1, 0] with bank 1: no balancing step is needed, and the result is [2, -2], total 0, not 1. generate_game asks for the bank genus + bank_minus_genus (graph.py:182-183), so the total is meant to be the bank | move one maximum from the last node to the first, keeping the total equal to the bank | medium, not executed | Generator.FixUpAsWrittenMissesBank | Generator.RandomListOfValuesCorrected |
