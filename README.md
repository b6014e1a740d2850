# Student grouping pipeline, in Dafny

This project models the grouping pipeline of `grouping.py`. The script reads
peer-preference form responses. Each student gives their own first and last
name and up to four names of classmates they want to work with. The script:

1. normalises every name into a `Student` (`Student.__init__`, `parse`,
   `get_full_name`);
2. builds one row per response, the requester first, then the students they
   asked for (`parse_data`);
3. gives every distinct full name a dense integer id, in first-seen order,
   and rewrites the rows as ids (`make_graph`);
4. weighs every pair of ids. A pair that shares a row gains 0.5 and an ask
   from the requester gains another 0.5. The script then emits one edge per
   pair, with a priority tier from 1 to 4 (`group_students`);
5. given the groups the clustering library forms, reports every ask that
   no group met (`group_students`).

The modules follow these stages:

- `Wrappers` holds `Option` and `Result`.
- `Names` covers stage 1 and is pure.
- `Rows` covers stage 2.
- `Graph` covers stage 3.
- `Pairs` holds `itertools.combinations` and the sorted pair key.
- `Weights` and `Edges` cover stage 4.
- `Report` covers stage 5.
- `Grouping` holds `group_students` as a whole.

Every loop of the source is a method with loop invariants. Each method is
proved equal to a specification function. The exceptions are the methods of
`Graph`, which are proved to produce the numbering of the first-seen order,
and `Grouping.GroupStudents`, which is proved to produce that numbering and
the results of the later stages' specification functions.
The lemmas state what the source promises about those functions.

Representation choices:
- Weights are whole numbers of half-units, so 0.5 is 1 and 3.0 is 6. Every
  weight the script makes is a multiple of 0.5, so the floats are exact and
  nothing is lost.
- The dictionary key `"a_b"` (the ids sorted, joined with `_`) is the pair
  `(min, max)`. Decimal ids joined by `_` never collide, so the two keys
  identify the same edges.
- The keys `"a-b"` of `student_matches` are ordered pairs.

On these points the model follows what the code does:
- A name of four or more words is not an error. `parse` keeps the first and
  last words and drops the inner ones.
- A name with no words makes `parse` fail, at `x[0]`. In `parse_data` that
  failure ends the whole run. It is not reported row by row.
- A classmate named twice in one row stays twice. The requester's ask then
  adds 0.5 twice, so the pair weighs 2.0 from a single row
  (`Weights.RepeatedAskCountsTwice`). The unmet report lists that ask twice
  (`Report.RepeatedAskReportedTwice`).
- An ask counts as met when the two students hold two different places of
  one group. A student in no group therefore has all their asks reported.
  Comparing the two students' groups would differ for such a student.

## Model

| member | source | states |
|---|---|---|
| Names.LowerChar | grouping.py:10-13 | lower-casing maps each upper-case ASCII letter to its lower-case letter, never yields an upper-case ASCII letter, keeps whitespace whitespace, and leaves every other character alone |
| Names.Lower | grouping.py:10-13 | lower-casing keeps the length of the string |
| Names.LowerIdempotent | grouping.py:10-13 | lower-casing twice is lower-casing once |
| Names.TrimLeftCut | grouping.py:10-13 | the left trim of `strip()` leaves a suffix, cuts only whitespace, and leaves no whitespace at the start |
| Names.TrimRightCut | grouping.py:10-13 | the right trim of `strip()` leaves a prefix, cuts only whitespace, and leaves no whitespace at the end |
| Names.StripCut | grouping.py:10-13 | `strip()` leaves a slice of its argument with only whitespace cut at either end and no whitespace at its own ends |
| Names.CleanPart | grouping.py:10-13 | a stripped, lower-cased part is in lower case and has no whitespace at either end |
| Names.NewStudent | grouping.py:9-15 | every stored part is in lower case with no whitespace at either end, even for raw requester cells, and the middle name is present exactly when one was given |
| Names.SplitTokens | grouping.py:19 | `split()` yields non-empty words without whitespace |
| Names.SplitWords | grouping.py:19 | the words of `split()`, run together, are exactly the non-whitespace characters of the string, in order |
| Names.SplitAtSpace | grouping.py:19 | whitespace separates words: cutting a string at any whitespace character splits it into the words before and the words after, so the amount and kind of whitespace between words does not matter |
| Names.SplitEmpty | grouping.py:19-20 | `split()` yields no word exactly when the string is empty or all whitespace, the case in which `x[0]` raises |
| Names.SplitJoin | grouping.py:19-33 | splitting the single-space join of words gives back those words |
| Names.SplitLower | grouping.py:10-19 | splitting a lower-cased string gives the lower-cased words of the string |
| Names.Parse | grouping.py:18-24 | `parse` fails exactly when the name has no words |
| Names.ParseFields | grouping.py:18-24 | first name is the first word, last name the last word, lower-cased; a middle name exists exactly when there are three words |
| Names.ParseIgnoresCaseAndSpacing | grouping.py:9-24 | two names whose lower-cased words agree parse to the same student, whatever their case and spacing |
| Names.ParsedParts | grouping.py:9-33 | the parts of a parsed student are words already in lower case |
| Names.ParseFullName | grouping.py:18-33 | parsing the full name of a parsed student gives that student back |
| Names.FullNameIdentifies | grouping.py:18-33 | two parsed names have the same full name exactly when they parse to the same student |
| Rows.Requests | grouping.py:59-65 | a row never keeps more requests than it has cells |
| Rows.RequestsFails | grouping.py:59-62 | the requests of a row fail exactly when some present cell has no words |
| Rows.RequestsSelect | grouping.py:59-65 | the kept requests are the parsed present cells in column order, minus exactly those with the requester's full name |
| Rows.KeptNames | grouping.py:63-65 | no kept request has the requester's full name |
| Rows.ParseRows | grouping.py:53-67 | a successful run gives one row per response |
| Rows.ParseRowsAt | grouping.py:53-67 | the run fails if any row fails, and otherwise its i-th row is the row built for the i-th response |
| Rows.ParseRowsOk | grouping.py:53-67 | the run succeeds when every row parses, the converse of `ParseRowsAt`'s failure clause |
| Rows.ParsedRowShape | grouping.py:55-66 | every row starts with its requester, and no later entry has the requester's full name |
| Rows.RowRequests | grouping.py:59-65 | the inner loop computes the requests of one row, including the failure |
| Rows.ParseData | grouping.py:53-67 | the nested loops compute `ParseRows` of the responses, including the failure |
| Graph.NameRows | grouping.py:100-101 | the full-name rows have the shape of the student rows |
| Graph.FirstSeenSpec | grouping.py:101-107 | the first-seen order holds every full name once and nothing else |
| Graph.NumberingInverse | grouping.py:94-111 | `student_ids` and `reverse_student_ids` are mutual inverses over ids `0 .. n-1`, with `n` the number of distinct full names |
| Graph.SameIdSameName | grouping.py:101-108 | two places of a row get the same id exactly when their full names are equal |
| Graph.Allocate | grouping.py:101-107 | a known name keeps its id; a new name gets the next id in both maps |
| Graph.NumberName | grouping.py:101-108 | one name of a row: looked up or allocated, with the maps kept as the numbering of the first-seen order |
| Graph.NumberRow | grouping.py:99-108 | the inner loop numbers a row, extends both maps, and never changes an existing id |
| Graph.GraphRow | grouping.py:98-110 | one turn of the outer loop keeps the numbering of all names seen so far and the ids of all finished rows |
| Graph.MakeGraph | grouping.py:93-111 | the graph has the rows' shape, each entry is the id of that student's full name, and the maps number the full names in first-seen order |
| Pairs.Key | grouping.py:131 | the key has the smaller id first and holds exactly the two ids of the edge |
| Pairs.KeyIff | grouping.py:131 | two edges share a key exactly when they join the same two ids |
| Pairs.CombinationsMember | grouping.py:127 | `combinations(row, 2)` yields exactly the pairs `(row[i], row[j])` with `i < j` |
| Pairs.CombinationsLength | grouping.py:127 | a row of `n` ids has `n (n - 1) / 2` pairs |
| Pairs.CombinationsAt | grouping.py:127 | the pair of positions `i < j` is emitted as `(row[i], row[j])` at index `Pos(n, i, j)`, so a repeated id still gives one pair per pair of positions, oriented as met |
| Pairs.PosLex | grouping.py:127 | the emission order is lexicographic on the positions `(i, j)`; with `CombinationsLength` each pair of positions appears exactly once |
| Weights.AddPairsCount | grouping.py:127-132 | the pair loop adds to each key the number of pairs of distinct ids with that key |
| Weights.AddAsksCount | grouping.py:133-137 | the ask loop adds to each key the number of asks with that key |
| Weights.WeightsCount | grouping.py:125-137 | each key's weight is the sum, over rows, of that row's pair count plus ask count |
| Weights.WeightsKeys | grouping.py:125-137 | stored keys are sorted and have positive weight, and a key is stored exactly when some row gives it weight |
| Weights.WeightsGrow | grouping.py:126-137 | processing more rows never lowers a weight |
| Weights.RowWeightDistinct | grouping.py:126-137 | in a row of distinct ids a direct ask adds 1.0, two co-requested students add 0.5, anything else adds nothing |
| Weights.PairWeighed | grouping.py:127-132 | every pair of distinct ids in some row has weight at least 0.5 |
| Weights.NoSelfKeys | grouping.py:129-137 | without self-asks every stored key joins two distinct ids |
| Weights.RepeatedAskCountsTwice | grouping.py:127-137 | a row naming the same classmate twice gives that pair 2.0 and stores no self-key |
| Weights.MutualAsk | grouping.py:133-137 | two students asking for each other give their pair 2.0 |
| Weights.BumpPairs | grouping.py:128-132 | the pair loop computes `AddPairs` |
| Weights.BumpAsks | grouping.py:133-137 | the ask loop computes `AddAsks` |
| Weights.FindEdgeWeights | grouping.py:124-137 | the weight loops compute `EdgeWeights` of the graph |
| Edges.Tier | grouping.py:151-160 | 3.0 and up is tier 1, 2.0 up to 3.0 is 2, 1.0 up to 2.0 is 3, exactly 0.5 is 4, and only 0 has no tier |
| Edges.TierMonotone | grouping.py:151-158 | a heavier edge never gets a larger tier number |
| Edges.FirstEdgesErrStays | grouping.py:150-160 | once the second pass fails, it fails with that same error |
| Edges.FirstEdgesOk | grouping.py:146-160 | the second pass succeeds exactly when every pair of distinct ids has weight at least 0.5 |
| Edges.FirstEdgesCover | grouping.py:143-163 | every key of a pair of distinct ids gets an edge |
| Edges.FirstEdgesUnique | grouping.py:148-163 | no key gets two edges, and each edge has the tier of its key's weight |
| Edges.FirstEdgesFirst | grouping.py:143-163 | each edge is the first pair of its key, in the orientation first met |
| Edges.NeverRaises | grouping.py:125-160 | with the weights of the first pass, neither the lookup nor the `raise` can fail |
| Edges.EdgeKeysOfWeights | grouping.py:125-163 | the edge keys are the stored keys that join two distinct ids |
| Edges.EdgesMatchWeights | grouping.py:125-163 | without self-asks there is exactly one edge per stored key |
| Edges.RowEdges | grouping.py:144-163 | the inner loop extends the edges and `visited` by one row's pairs, including the failures |
| Edges.BuildEdges | grouping.py:142-163 | the second pass computes `FirstEdges` of all pairs, including the failures |
| Report.BothWaysIff | grouping.py:173-176 | the matches of a group's pairs hold both orientations of each pair |
| Report.MatchesIff | grouping.py:170-176 | `(a, b)` is a match exactly when `a` and `b` hold two places of one group |
| Report.AsksIff | grouping.py:182-184 | `(a, b)` is an ask exactly when some row's first student is `a` and a later entry is `b` |
| Report.UnmetFilters | grouping.py:178-186 | the report is the asks, in order, minus those that are matches |
| Report.MissingCount | grouping.py:183-186 | filtering keeps every unmatched pair as often as it occurs and drops every matched one |
| Report.UnmetSpec | grouping.py:170-186 | an ask is reported exactly when its students share no group, once per time it was asked |
| Report.RepeatedAskReportedTwice | grouping.py:179-186 | an ask written twice in a row, with no groups, is reported twice |
| Report.AddMatches | grouping.py:173-176 | the loop over one group's pairs adds both orientations of each |
| Report.StudentMatches | grouping.py:170-176 | the loop over the groups computes `Matches` |
| Report.RowUnmet | grouping.py:180-186 | one row's loop reports its asks that are not matches, in column order |
| Report.UnmetRequests | grouping.py:170-186 | the report loops compute `Unmet` of the graph against the groups' matches |
| Grouping.ParsedRequesterFirst | grouping.py:55-66 | rows from `parse_data` are non-empty and repeat no requester's full name |
| Grouping.NoSelfAsksFromNames | grouping.py:63-108 | for such rows, no graph row asks for its own first id |
| Grouping.GroupStudents | grouping.py:114-186 | the stages run in order, the edge pass cannot fail, and for rows from `parse_data` there is exactly one edge per stored key |

## Left out

- Names.LowerChar: lower-cases only the ASCII letters `A`-`Z`. Python's `str.lower` also maps other upper-case letters and can change a string's length. Both are left out because Dafny has no Unicode case tables.
- `str.split()` and `str.strip()` use the whitespace set of `str.isspace`. The model names that set character by character.
- CSV loading and column renaming (grouping.py:36-49) are file I/O. A response is a `FormRow`: two name strings and the request cells, with `None` for a cell pandas reads as null. The requester's two cells are assumed to be strings.
- `validate_data` (grouping.py:70-90) only prints diagnostics. It calls a fuzzy name matcher from a library that is not part of this model.
- The script driver (grouping.py:188-191) and every `print` are left out. `group_students` returns its graph, maps, weights, edge list and unmet report instead.
- The unmet report is a list of id pairs. Printing the names through `reverse_student_ids` is output only.
- `make_disjoint_clusters` (grouping.py:119) is a library call whose result is only printed, so it is left out. It receives `graph` itself, and the model assumes the call leaves `graph` unchanged.
- `priority_based_linkage` (grouping.py:165) is a library call. Its groups are the parameter `comps` of the report.
- The tier thresholds are the fixed constants of the code. They cannot be configured.
- Weights.FindEdgeWeights, Report.UnmetRequests, Grouping.GroupStudents: require every graph row to be non-empty, so the `IndexError` of `row[0]` on an empty row is not modelled. Rows from `parse_data` always start with the requester (`Grouping.ParsedRequesterFirst`).
- Names.Parse: the `IndexError` of `x[0]` on a name without words is the error value `EmptyName`.
