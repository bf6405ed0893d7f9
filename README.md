# Word segmentation of trademark text, modelled in Dafny

The model covers the word segmenter of the `vision.trademark.nlp` package and its older copy, `WordSegmentation` in the default package. Both split a run-together string such as a trademark into dictionary words. The pipeline runs in five steps:

1. **Normalise.** Null becomes the empty string; otherwise the text is lower-cased, trimmed and stripped of apostrophes.
2. **Find candidates.** A window of `minLength` characters slides over the text. At each offset whose window is a key of the prefix index (`ngramTree`), the segmenter emits two kinds of candidate:
   - every indexed word the text spells at that offset;
   - the single letter "a", when the window begins with 'a'.

   The candidates are then stable-sorted by start.
3. **Group.** Candidates whose inclusive ranges overlap form one connected component.
4. **Choose words.** For each component, a memoised dynamic programme (`opt`) scores chains of words:
   - each word earns its unigram score;
   - a word nothing precedes is penalised for its offset;
   - adjacent words with a known bigram earn a reward.

   `path` rebuilds the chosen chain from the memo, and the component contributes its span and its word list.
5. **Assemble.** The maximal runs of the text that no component span covers become literal tokens. The method merges them with the component spans by start offset into the token list.

The modules follow the source:

| module | file | what it holds |
|---|---|---|
| `JavaUtil` | `java_util.dfy` | nullable values, 32-bit wrap-around, `String.hashCode` over the characters of a Dafny string, `Objects.hash` |
| `Positions` | `positions.dfy` | the value classes `Position`, `SuffixedPosition`, `ScorePosition` and `MaybeRange`, with `equals` and `hashCode` as written |
| `Collections` | `collections.dfy` | `Collections.reverse`, the stable sort, and hash-ordered iteration |
| `Candidates` | `candidates.dfy` | `cuts`, `ngramTree`, `meaningfulWords`, `isNotIntersecting` |
| `Components` | `components.dfy` | `connectedSets` |
| `OptimalPath` | `optimal_path.dfy` | the predecessor table, `max`, `add`, `penalize`, `opt`, `path`, `calculatePaths`, `optComponent` |
| `Assembly` | `assembly.dfy` | the covered indices, `missingSegments`, and the merge into the token list |
| `Segmenter` | `segmenter.dfy` | the nlp `WordSegmentation`: constructor, `getUnigramScore`, `segment` |
| `Legacy` | `legacy.dfy` | what the older class does differently: `calculateNgrams`, `checkIntersection`, `nonMeaningfulRange`, its `optComponent` and `segment(minLength, text)` |

Both classes nest private copies of `Position`, `WordPosition` and `MaybeRange` (`Something` in the older class). These copies are modelled by the top-level datatypes:

- a candidate (`Pair<Position, Double>`) is a `ScorePosition<string>`;
- a window (`WordPosition`) is a `SuffixedPosition`;
- a predecessor range is a `MaybeRange`.

Scores are `real`s. `Math.log10` is the parameter `log10`, and the Unicode lower-casing and trimming is the parameter `lowerTrim`.

## Model

In the source column, the two `WordSegmentation.java` files are told apart by their paths. The one under `vision/trademark/nlp/` is the nlp class; `src/main/java/WordSegmentation.java` is the older class.

The table lists the members that carry a contract. Definitions without one are given their meaning by the rows of the members about them:
- `Positions.SuffixedEquals`, `ScoreEquals` and `MaybeRangeEquals` by `SuffixedEqualsExactly`, `ScoreEqualsExactly` and `MaybeRangeEqualsExactly`;
- `Candidates.Contains` by `ContainsFits`;
- `OptimalPath.BigramKey` and `RelativeFrequency` by `PenalizeBigram`;
- `OptimalPath.OptValue` by `Opt`, `OptValuePresent` and `OptAtOne`;
- `Assembly.SpanDic` by `SpanDicContents`;
- `Assembly.Order` by `OrderInBounds` and `Assemble`;
- `Assembly.Render` by `RenderLiterals`, `RenderAppend`, `RenderStep`, `RenderSingle` and `RenderAll`.

| member | source | states |
|---|---|---|
| JavaUtil.Wrap32 | src/main/java/vision/trademark/nlp/Position.java:40-42 | the result is a Java `int`, congruent to the exact value modulo 2^32, and equal to it when it already fits |
| JavaUtil.HashStep | src/main/java/vision/trademark/nlp/Position.java:41 | one `31 * h + e` step of `Objects.hash` stays in the `int` range |
| JavaUtil.StringHash | src/main/java/vision/trademark/nlp/Position.java:41 | `String.hashCode` stays in the `int` range |
| Positions.NewPosition | src/main/java/vision/trademark/nlp/Position.java:13-17 | the getters `getNgram`, `getStart` and `getEnd` return the constructor arguments |
| Positions.NewSuffixedPosition | src/main/java/vision/trademark/nlp/SuffixedPosition.java:11-22 | `getPrefix` returns the ngram, `getSuffix` the suffix, and start and end are as given |
| Positions.NewScorePosition | src/main/java/vision/trademark/nlp/ScorePosition.java:11-18 | `getScore` returns the score, and ngram, start and end are as given |
| Positions.MaybeRange.Get | src/main/java/vision/trademark/nlp/WordSegmentation.java:421-427 | index 0 gives `start`; any other index gives the value of a present `end` |
| Positions.PositionHash | src/main/java/vision/trademark/nlp/Position.java:40-42 | the hash of (ngram, start, end) is a Java `int` |
| Positions.SuffixedHash | src/main/java/vision/trademark/nlp/SuffixedPosition.java:34-36 | the hash of (position hash, suffix) is a Java `int` |
| Positions.ScoreHash | src/main/java/vision/trademark/nlp/ScorePosition.java:30-32 | the hash of (position hash, score) is a Java `int` |
| Positions.MaybeRangeHash | src/main/java/vision/trademark/nlp/MaybeRange.java:36-38 | the hash of (start, end) is a Java `int` |
| Positions.PositionEquals | src/main/java/vision/trademark/nlp/Position.java:30-37 | `Position.equals` holds exactly when the other object, viewed as a `Position` (subclasses included), has the same three fields |
| Positions.Equals | src/main/java/vision/trademark/nlp/Position.java:30-37 | `equals` is reflexive and false for null, and for every class but the plain `Position` it holds exactly for an identical object |
| Positions.HashCode | src/main/java/vision/trademark/nlp/Position.java:40-42 | every object's `hashCode` is a Java `int` |
| Positions.PositionEqualsFields | src/main/java/vision/trademark/nlp/Position.java:30-37 | a `Position` equals another plain `Position` exactly when start, end and ngram agree, and it equals itself |
| Positions.PositionEqualsSubclasses | src/main/java/vision/trademark/nlp/Position.java:32 | a plain `Position` equals a `SuffixedPosition` or `ScorePosition` that has the same three fields |
| Positions.SuffixedEqualsExactly | src/main/java/vision/trademark/nlp/SuffixedPosition.java:25-31 | a `SuffixedPosition` equals only a `SuffixedPosition` with the same position and suffix; never null, a plain `Position` or another class |
| Positions.ScoreEqualsExactly | src/main/java/vision/trademark/nlp/ScorePosition.java:21-27 | a `ScorePosition` equals only a `ScorePosition` with the same position and score, so a different score is unequal |
| Positions.MaybeRangeEqualsExactly | src/main/java/vision/trademark/nlp/MaybeRange.java:27-33 | a `MaybeRange` equals only a `MaybeRange` with equal `start` and `end`; never null or another class |
| Positions.HashConsistentWithinClass | src/main/java/vision/trademark/nlp/Position.java:40-42 | equal objects hash equally, unless exactly one of the two is a plain `Position` |
| Positions.EqualsAsymmetric | src/main/java/vision/trademark/nlp/SuffixedPosition.java:27 | as written, a plain `Position` equals a subclass object with the same fields, but the subclass object does not equal it |
| Positions.EqualButHashesDiffer | src/main/java/vision/trademark/nlp/SuffixedPosition.java:34-36 | as written, `Position("ab",0,1)` equals `SuffixedPosition("ab",0,1,"cd")`, yet their hash codes are 3013697 and 93428737 |
| Positions.StrictEqualsContract | src/main/java/vision/trademark/nlp/Position.java:30-37 | if `Position.equals` compares run-time classes like its subclasses do, `equals` is reflexive, symmetric and consistent with `hashCode` |
| Collections.Reverse | src/main/java/vision/trademark/nlp/WordSegmentation.java:114 | the result has the same length, with element `i` taken from position `n-1-i` |
| Collections.ReverseMembers | src/main/java/vision/trademark/nlp/WordSegmentation.java:114 | reversing keeps exactly the same elements |
| Collections.Insert | src/main/java/vision/trademark/nlp/WordSegmentation.java:135 | inserting into a sorted list keeps it sorted, and adds exactly one occurrence of the element |
| Collections.ConsSorted | src/main/java/vision/trademark/nlp/WordSegmentation.java:135 | an element whose key is strictly smaller can head a sorted list that holds the rest |
| Collections.SortBy | src/main/java/vision/trademark/nlp/WordSegmentation.java:135 | the sort is sorted by the key, a permutation of its input, and of the same length |
| Collections.SortByMembers | src/main/java/vision/trademark/nlp/WordSegmentation.java:135 | sorting neither adds nor drops an element |
| Collections.Enumerate | src/main/java/vision/trademark/nlp/WordSegmentation.java:177 | iterating a hash set or map yields each element exactly once, in some order |
| Candidates.Cuts | src/main/java/vision/trademark/nlp/WordSegmentation.java:372-380 | there are `n-minLen+1` windows, or none when `n < minLen`; window `k` starts at `k`, ends at `k+minLen`, has prefix `text[k..k+minLen)`, and prefix plus suffix is `text[k..]` |
| Candidates.AddEntryAt | src/main/java/vision/trademark/nlp/WordSegmentation.java:179-188 | after one more word is filed, each list holds, as a multiset, the words filed so far under its key |
| Candidates.AddEntryIndexes | src/main/java/vision/trademark/nlp/WordSegmentation.java:179-188 | filing one more word keeps the index exact: its keys are the prefixes and its lists the words under them |
| Candidates.IndexedTreeShape | src/main/java/vision/trademark/nlp/WordSegmentation.java:175-193 | an exact index has keys of length `minLength` and lists of words at least that long that start with their key; each long-enough word is under its own prefix |
| Candidates.NgramTree | src/main/java/vision/trademark/nlp/WordSegmentation.java:175-193 | every unigram of length at least `minLength` is listed under its prefix, shorter ones nowhere, and every listed word is a unigram |
| Candidates.ContainsFits | src/main/java/vision/trademark/nlp/WordSegmentation.java:126 | a word that `recovered` contains fits in the rest of the text, so the substring at line 127 is in bounds |
| Candidates.WindowWords | src/main/java/vision/trademark/nlp/WordSegmentation.java:117-133 | one window emits exactly the "a" candidate (when it begins with 'a') and the listed words the text spells at its start |
| Candidates.CandidateAtWindow | src/main/java/vision/trademark/nlp/WordSegmentation.java:117-133 | at a window whose prefix is a key, the candidates that start there are exactly what the window emits |
| Candidates.CandidateWindows | src/main/java/vision/trademark/nlp/WordSegmentation.java:107-114 | the filtered and reversed windows are exactly the windows whose prefix is a key of the index |
| Candidates.MeaningfulWords | src/main/java/vision/trademark/nlp/WordSegmentation.java:106-137 | the result is sorted by start and holds exactly the candidates: the "a" rule and every indexed word the text spells at a key window |
| Candidates.CandidateSound | src/main/java/vision/trademark/nlp/WordSegmentation.java:117-133 | a candidate lies inside the text, ends at `start+|w|-1`, is spelled by the text there, and carries its word's score |
| Candidates.CandidateComplete | src/main/java/vision/trademark/nlp/WordSegmentation.java:125-131 | every listed word that the text spells at a key window is a candidate |
| Candidates.IsNotIntersecting | src/main/java/vision/trademark/nlp/WordSegmentation.java:382-384 | when the test holds no index lies in both ranges; when it fails on well-formed ranges, the later start lies in both |
| Candidates.IsNotIntersectingMeaning | src/main/java/vision/trademark/nlp/WordSegmentation.java:382-384 | the test is symmetric and false for a well-formed position and itself |
| Components.EdgeSymmetric | src/main/java/vision/trademark/nlp/WordSegmentation.java:148-158 | the directed overlap graph has an edge each way, so connectivity is undirected |
| Components.SingletonConnected | src/main/java/vision/trademark/nlp/WordSegmentation.java:163 | a single candidate is a connected set |
| Components.ConnectedUnion | src/main/java/vision/trademark/nlp/WordSegmentation.java:163 | two connected sets that share a vertex or an edge are connected together |
| Components.Merge | src/main/java/vision/trademark/nlp/WordSegmentation.java:142-164 | adding one candidate to a list of components gives a list of components over one more vertex |
| Components.Untouched | src/main/java/vision/trademark/nlp/WordSegmentation.java:142-164 | a component that the new candidate does not touch shares no vertex and no edge with the merged set |
| Components.MergeComponents | src/main/java/vision/trademark/nlp/WordSegmentation.java:142-164 | the untouched components plus the merged set form a list of components over the old vertices and the new one |
| Components.ConnectedSets | src/main/java/vision/trademark/nlp/WordSegmentation.java:142-164 | the result partitions the candidates into non-empty, pairwise disjoint, connected sets, with no overlap between two sets |
| Components.ConnectedCovers | src/main/java/vision/trademark/nlp/WordSegmentation.java:142-164 | a connected set of well-formed candidates leaves no gap: every index between one member's start and another's end lies in some member |
| Components.ApartAcross | src/main/java/vision/trademark/nlp/WordSegmentation.java:148-163 | candidates of two different components share no index |
| Components.SameComponent | src/main/java/vision/trademark/nlp/WordSegmentation.java:148-163 | two candidates that are equal or overlap lie in the same set |
| OptimalPath.Max | src/main/java/vision/trademark/nlp/WordSegmentation.java:336-340 | the result is null only when both arguments are; otherwise it is one of them and no smaller than either present value |
| OptimalPath.CircularGet | src/main/java/vision/trademark/nlp/WordSegmentation.java:395-401 | a negative index counts from the end: the element at `i mod n`, so `-1` is the last one |
| OptimalPath.Div | src/main/java/vision/trademark/nlp/WordSegmentation.java:361 | a non-zero divisor gives the exact quotient; a zero divisor gives 0 |
| OptimalPath.Add | src/main/java/vision/trademark/nlp/WordSegmentation.java:342-348 | the sum with a null first addend equals the sum with zero |
| OptimalPath.Penalize | src/main/java/vision/trademark/nlp/WordSegmentation.java:350-369 | with no predecessor it is `-10·start`; a non-zero value otherwise means adjacent words that form a known bigram |
| OptimalPath.PenalizeBigram | src/main/java/vision/trademark/nlp/WordSegmentation.java:359-364 | for adjacent words with a known bigram it is `count / 1024908267229 / prevScore - currScore` |
| OptimalPath.PenalizeInTable | src/main/java/vision/trademark/nlp/WordSegmentation.java:357-367 | in the table, a predecessor always ends right before the word, so the branch at line 359 is always taken and the last branch never is |
| OptimalPath.PrevList | src/main/java/vision/trademark/nlp/WordSegmentation.java:227-235 | the list holds, increasing and 1-based, exactly the candidates that end right before this one starts |
| OptimalPath.RangeOfPrevList | src/main/java/vision/trademark/nlp/WordSegmentation.java:236-246 | the range built from the reversed list holds the largest predecessor and the second largest; with none, `start` is 0 and `end` absent |
| OptimalPath.PredecessorTable | src/main/java/vision/trademark/nlp/WordSegmentation.java:225-247 | each entry pairs its candidate with the range of its last two predecessors |
| OptimalPath.PredecessorTableIsDP | src/main/java/vision/trademark/nlp/WordSegmentation.java:221-247 | on end-sorted, well-formed candidates the table is one the recurrence can run on (`DPTable`) |
| OptimalPath.EntryIsOK | src/main/java/vision/trademark/nlp/WordSegmentation.java:228-246 | every predecessor index `k` satisfies `1 ≤ k < j` and ends at `start_j - 1`; a second predecessor is the one just before and has the same end |
| OptimalPath.PredBefore | src/main/java/vision/trademark/nlp/WordSegmentation.java:232 | in end-sorted order a predecessor comes strictly before its successor |
| OptimalPath.OptValuePresent | src/main/java/vision/trademark/nlp/WordSegmentation.java:315-334 | `opt(j)` is never null for `j ≥ 1`, and is at least the value of choosing entry `j` |
| OptimalPath.OptAtOne | src/main/java/vision/trademark/nlp/WordSegmentation.java:328 | at `j = 1`, `lst.get(-1)` wraps to the last entry, but the skip branch gives null either way, so `opt(1)` is the choose value |
| OptimalPath.Opt | src/main/java/vision/trademark/nlp/WordSegmentation.java:315-334 | the result is the recurrence: null at 0, else the max of choosing `j` and, when entry `j-1` ends where `j` ends, skipping it; the memo keeps old entries, stores under `j-1`, and holds only recurrence values |
| OptimalPath.Choose | src/main/java/vision/trademark/nlp/WordSegmentation.java:324-326 | the "choose j" argument is the recurrence at the first predecessor plus score and penalty, and leaves that predecessor in the memo |
| OptimalPath.Skip | src/main/java/vision/trademark/nlp/WordSegmentation.java:327-328 | the "skip j" argument is the recurrence at `j-1` when entry `j-1` (circularly) ends where entry `j` does, and null otherwise; it keeps the memo |
| OptimalPath.KeepsStore | src/main/java/vision/trademark/nlp/WordSegmentation.java:330 | once the recursive calls have kept the memo, storing under a new key keeps it |
| OptimalPath.MemoSoundExtend | src/main/java/vision/trademark/nlp/WordSegmentation.java:330 | storing the value of the recurrence keeps every memo entry correct |
| OptimalPath.MemoClosedExtend | src/main/java/vision/trademark/nlp/WordSegmentation.java:330 | storing prefix `j` after its sub-problems keeps the memo closed, so `path` never reads a missing entry |
| OptimalPath.Lookup | src/main/java/vision/trademark/nlp/WordSegmentation.java:290 | `memo.get(k)` is non-null exactly when `k` is a key |
| OptimalPath.Path | src/main/java/vision/trademark/nlp/WordSegmentation.java:281-313 | it only appends, appends nothing exactly when `j = 0`, and appends words of entries below `j` ending no later than entry `j`, each ending before the one appended before it starts |
| OptimalPath.NextIndex | src/main/java/vision/trademark/nlp/WordSegmentation.java:299-309 | with one predecessor the step goes to it; with two, both memo values exist and the step goes to the first exactly when its value is at least the second's, and otherwise to the second; it is below `j`, and that entry ends before entry `j` starts |
| OptimalPath.SortedEnds | src/main/java/vision/trademark/nlp/WordSegmentation.java:221-223 | ends never decrease along the table |
| OptimalPath.TiedKeys | src/main/java/vision/trademark/nlp/WordSegmentation.java:268-272 | the list holds exactly the memo keys whose value equals the result |
| OptimalPath.TablePositions | src/main/java/vision/trademark/nlp/WordSegmentation.java:225-247 | the table's positions are listed in order |
| OptimalPath.DrawnIndex | src/main/java/vision/trademark/nlp/WordSegmentation.java:249 | a path word drawn from the table is the word of some entry |
| OptimalPath.ReversedChain | src/main/java/vision/trademark/nlp/WordSegmentation.java:277 | reversing a path built last word first gives a chain in reading order |
| OptimalPath.ReadPath | src/main/java/vision/trademark/nlp/WordSegmentation.java:275-278 | the rebuilt and reversed path is a chain of table words, each ending before the next starts, and is non-empty exactly when `j ≥ 1` |
| OptimalPath.CalculatePaths | src/main/java/vision/trademark/nlp/WordSegmentation.java:262-279 | for a non-empty component the path is non-empty, drawn from the table, and strictly left to right without overlaps |
| OptimalPath.Ngrams | src/main/java/vision/trademark/nlp/WordSegmentation.java:251-254 | the word list is the path's n-grams, in order |
| OptimalPath.OptComponent | src/main/java/vision/trademark/nlp/WordSegmentation.java:220-260 | the words are a left-to-right chain of the component's candidates inside `[s, e]`; `s` is where the first starts, `e` is the largest end in the component, and one candidate yields exactly itself |
| OptimalPath.ComponentTable | src/main/java/vision/trademark/nlp/WordSegmentation.java:221-247 | the table is a `DPTable` that holds exactly the component's candidates |
| OptimalPath.ComponentChain | src/main/java/vision/trademark/nlp/WordSegmentation.java:256-257 | a chain from the table uses component words between its first start and the last entry's end, which is the component's largest end |
| OptimalPath.ChainInside | src/main/java/vision/trademark/nlp/WordSegmentation.java:256-257 | every word of a chain lies between the chain's first start and the largest end |
| OptimalPath.ChainStartsIncrease | src/main/java/vision/trademark/nlp/WordSegmentation.java:256 | along a chain of well-formed positions no word starts before the first |
| OptimalPath.SingleCandidatePath | src/main/java/vision/trademark/nlp/WordSegmentation.java:220-260 | a one-candidate component's path is exactly that candidate |
| Assembly.Covered | src/main/java/vision/trademark/nlp/WordSegmentation.java:74-77 | the covered set holds exactly the indices of the component spans |
| Assembly.MeaningfulIndices | src/main/java/vision/trademark/nlp/WordSegmentation.java:74-77 | an index is covered exactly when some component span `[start, end]` holds it: the set is `Covered(post)` |
| Assembly.MissingSegments | src/main/java/vision/trademark/nlp/WordSegmentation.java:195-218 | the result lists, in ascending order, exactly the maximal runs of `[0, n)` absent from the covered set |
| Assembly.ScanMissing | src/main/java/vision/trademark/nlp/WordSegmentation.java:200-211 | an uncovered index opens, extends, or follows the open run, and the scan state holds one index further |
| Assembly.SkipCovered | src/main/java/vision/trademark/nlp/WordSegmentation.java:199-200 | an index some span covers changes neither the closed runs nor the open run |
| Assembly.StartRun | src/main/java/vision/trademark/nlp/WordSegmentation.java:201-202 | the first uncovered index opens the first run |
| Assembly.ExtendRun | src/main/java/vision/trademark/nlp/WordSegmentation.java:204-205 | an uncovered index right after the open run extends it |
| Assembly.NewRun | src/main/java/vision/trademark/nlp/WordSegmentation.java:206-210 | an uncovered index after a gap closes a maximal run and opens a new one |
| Assembly.LastRun | src/main/java/vision/trademark/nlp/WordSegmentation.java:214-216 | closing the open run at the end of the text completes the list of maximal runs |
| Assembly.FinishScan | src/main/java/vision/trademark/nlp/WordSegmentation.java:214-217 | closing the open run, if any, after the last index leaves exactly the maximal runs |
| Assembly.CloseRun | src/main/java/vision/trademark/nlp/WordSegmentation.java:207 | appending the open run's first and last index adds a maximal run after the others |
| Assembly.MaximalRunsUnique | src/main/java/vision/trademark/nlp/WordSegmentation.java:195-218 | only one list satisfies the contract of `missingSegments` |
| Assembly.MaximalRunsSuffix | src/main/java/vision/trademark/nlp/WordSegmentation.java:195-218 | two run lists that agree on a prefix agree everywhere |
| Assembly.NoRunsAfter | src/main/java/vision/trademark/nlp/WordSegmentation.java:195-218 | a run list that extends another one cannot have extra runs |
| Assembly.RunsOrdered | src/main/java/vision/trademark/nlp/WordSegmentation.java:195-218 | a later run starts after an earlier one ends |
| Assembly.SameRun | src/main/java/vision/trademark/nlp/WordSegmentation.java:195-218 | after an agreeing prefix, the next runs of two run lists are equal |
| Assembly.StartNotBefore | src/main/java/vision/trademark/nlp/WordSegmentation.java:195-218 | after an agreeing prefix, the next run of one list cannot start before the next run of the other |
| Assembly.SameRunBounds | src/main/java/vision/trademark/nlp/WordSegmentation.java:195-218 | two maximal runs that share an index are equal |
| Assembly.RunsAndSpansCover | src/main/java/vision/trademark/nlp/WordSegmentation.java:74-79 | the literal runs and the component spans together cover `[0, n)`, and a literal run never overlaps a span |
| Assembly.RenderAppend | src/main/java/vision/trademark/nlp/WordSegmentation.java:93-102 | the tokens of a concatenation of spans are the concatenation of their tokens |
| Assembly.RenderStep | src/main/java/vision/trademark/nlp/WordSegmentation.java:93-102 | one more span appends exactly that span's tokens |
| Assembly.RenderSingle | src/main/java/vision/trademark/nlp/WordSegmentation.java:94-100 | a literal span contributes `text[left..right]` as one token; a component span contributes its word list |
| Assembly.RenderLiterals | src/main/java/vision/trademark/nlp/WordSegmentation.java:92-103 | a span list without component spans renders to one token per span, the text that span covers |
| Assembly.WholeTextRun | src/main/java/vision/trademark/nlp/WordSegmentation.java:74-103 | with no components, a non-empty text is one maximal run and the token list is the whole text |
| Assembly.Spans | src/main/java/vision/trademark/nlp/WordSegmentation.java:85-87 | span `t` is the `(start, end)` of component `t` |
| Assembly.SpanDicContents | src/main/java/vision/trademark/nlp/WordSegmentation.java:84-89 | the keys of `meaningfulDic` are the component spans; when spans are distinct, each holds its own component's words |
| Assembly.OrderInBounds | src/main/java/vision/trademark/nlp/WordSegmentation.java:90-99 | after sorting, every span that is not a component span is a literal range inside the text, so the substring is in bounds |
| Assembly.CollectSpans | src/main/java/vision/trademark/nlp/WordSegmentation.java:81-89 | the position list holds the literal ranges followed by the component spans, and the dictionary maps each span to its words |
| Assembly.Assemble | src/main/java/vision/trademark/nlp/WordSegmentation.java:81-103 | the tokens are the spans', in ascending start order: a literal span gives its text and a component span its words |
| Assembly.RenderAll | src/main/java/vision/trademark/nlp/WordSegmentation.java:92-103 | the token list is the sorted spans' tokens in order: a dictionary span gives its words, any other span its text |
| Segmenter.NewWordSegmentation | src/main/java/vision/trademark/nlp/WordSegmentation.java:33-39 | the tables are kept, and the prefix index is built once for the one `minLength` |
| Segmenter.Pow10 | src/main/java/vision/trademark/nlp/WordSegmentation.java:391 | `10^k` is at least 1 |
| Segmenter.Pow10Increasing | src/main/java/vision/trademark/nlp/WordSegmentation.java:391 | larger exponents give larger powers |
| Segmenter.UnigramScore | src/main/java/vision/trademark/nlp/WordSegmentation.java:386-392 | with an increasing `log10`, a known word rarer than the whole corpus scores below zero |
| Segmenter.KnownWordOrder | src/main/java/vision/trademark/nlp/WordSegmentation.java:386-392 | with an increasing `log10`, of two known words the more frequent scores higher |
| Segmenter.UnknownWordPenalty | src/main/java/vision/trademark/nlp/WordSegmentation.java:386-392 | with an increasing `log10`, a longer unknown word scores strictly lower |
| Segmenter.RemoveApostrophes | src/main/java/vision/trademark/nlp/WordSegmentation.java:62 | the result holds exactly the characters of the input other than apostrophes, and input without apostrophes is unchanged |
| Segmenter.Normalize | src/main/java/vision/trademark/nlp/WordSegmentation.java:62 | null becomes the empty text, and the text never holds an apostrophe |
| Segmenter.Stretch | src/main/java/vision/trademark/nlp/WordSegmentation.java:99 | `substring(left, right + 1)` holds the `right-left+1` characters from `left` on |
| Segmenter.Segment | src/main/java/vision/trademark/nlp/WordSegmentation.java:61-104 | the tokens are the render, in ascending start order, of the maximal uncovered runs and the spans of `post`, where `post[u]` summarizes component `u` of the candidates' overlap graph with the words of a chain (`Pipeline`); the spans are apart and each renders its own component's words; a null or empty input gives no tokens, a text without candidates is one token, and every token is a candidate word or a stretch of the text |
| Segmenter.OptComponents | src/main/java/vision/trademark/nlp/WordSegmentation.java:68-72 | one triple per component, in order, each summarizing its component (`Summarizes`: span from the chain's first start to the largest end, the chain's words, a single candidate as itself) with words of the prefix index |
| Segmenter.OptOne | src/main/java/vision/trademark/nlp/WordSegmentation.java:69-71 | `optComponent` of one component summarizes it with the words of a chain of its candidates, all words of the prefix index |
| Segmenter.ChainSummarizes | src/main/java/vision/trademark/nlp/WordSegmentation.java:220-260 | the facts `optComponent` returns about its triple and chain make a summary of the component |
| Segmenter.PipelineFacts | src/main/java/vision/trademark/nlp/WordSegmentation.java:61-104 | after the stages of `segment` the spans are apart and each carries its own words, the empty text gives no tokens, and a non-empty text without candidates is one token |
| Segmenter.NoCandidatesInEmptyText | src/main/java/vision/trademark/nlp/WordSegmentation.java:106-137 | the empty text has no candidates |
| Segmenter.NoCandidatesNoSets | src/main/java/vision/trademark/nlp/WordSegmentation.java:142-164 | no candidates means no components |
| Segmenter.NoRunsInEmptyText | src/main/java/vision/trademark/nlp/WordSegmentation.java:195-218 | the empty text has no uncovered runs |
| Segmenter.ComponentWellFormed | src/main/java/vision/trademark/nlp/WordSegmentation.java:69-70 | each component passed to `optComponent` is non-empty, with well-formed positions |
| Segmenter.ComponentWords | src/main/java/vision/trademark/nlp/WordSegmentation.java:251-254 | a component contributes only candidate words |
| Segmenter.EndsBefore | src/main/java/vision/trademark/nlp/WordSegmentation.java:68-89 | of two different components, the span that starts no later ends before the other starts |
| Segmenter.SpansDisjoint | src/main/java/vision/trademark/nlp/WordSegmentation.java:68-89 | the spans of different components share no index |
| Segmenter.DicHoldsWords | src/main/java/vision/trademark/nlp/WordSegmentation.java:84-89 | with spans apart, `meaningfulDic` holds each component's own words under its span |
| Segmenter.RunsInText | src/main/java/vision/trademark/nlp/WordSegmentation.java:79 | the runs of `missingSegments` lie inside the text |
| Segmenter.TokensOfRender | src/main/java/vision/trademark/nlp/WordSegmentation.java:92-103 | every assembled token is a candidate word or a stretch of the text |
| Segmenter.DicWords | src/main/java/vision/trademark/nlp/WordSegmentation.java:84-89 | the values of `meaningfulDic` are components' word lists |
| Segmenter.RenderTokens | src/main/java/vision/trademark/nlp/WordSegmentation.java:93-102 | every token comes from a dictionary value or a literal range |
| Legacy.PrefixSumRemove | src/main/java/WordSegmentation.java:165 | the summed count of a prefix does not depend on the order of the unigrams |
| Legacy.PrefixSumAdd | src/main/java/WordSegmentation.java:165 | one more unigram adds its count to its own prefix's total and nothing to the others |
| Legacy.MergeSum | src/main/java/WordSegmentation.java:165 | `merge(cut, v, Long::sum)` adds the key `cut`, whose value is the old one plus `v` (or `v`), and changes no other key |
| Legacy.SumsOverStep | src/main/java/WordSegmentation.java:162-174 | merging the next unigram keeps every total equal to the sum over the unigrams seen so far |
| Legacy.NothingFiled | src/main/java/WordSegmentation.java:159-160 | before the loop the empty maps are exact for no unigrams |
| Legacy.FileUnigram | src/main/java/WordSegmentation.java:162-174 | one loop step files the unigram under its prefix and merges its count, keeping both maps exact |
| Legacy.CalculateNgrams | src/main/java/WordSegmentation.java:158-178 | the index is exact and well shaped; `ngramDistribution` has the index's keys, and each total is the sum of the counts of the unigrams under that prefix |
| Legacy.AllFiled | src/main/java/WordSegmentation.java:177 | after every unigram, the index is well shaped, lists only unigrams, and the totals cover them all |
| Legacy.TreeWordsListed | src/main/java/WordSegmentation.java:167-173 | the index lists only unigrams |
| Legacy.IntRange | src/main/java/WordSegmentation.java:409 | `IntStream.range(lo, hi + 1)` as a set holds exactly `lo..hi` |
| Legacy.CheckIntersection | src/main/java/WordSegmentation.java:408-411 | an index is in the result exactly when both inclusive ranges hold it |
| Legacy.CheckIntersectionAgrees | src/main/java/WordSegmentation.java:408-411 | on well-formed ranges the result is empty exactly when the nlp `isNotIntersecting` holds |
| Legacy.EdgeAgrees | src/main/java/WordSegmentation.java:139-140 | on well-formed candidates the legacy overlap graph has the nlp graph's edges |
| Legacy.NonMeaningfulRange | src/main/java/WordSegmentation.java:180-188 | the ranges lie in the text in ascending order, an index lies in a range exactly when no component span covers it, and they are the maximal uncovered runs |
| Legacy.OptComponent | src/main/java/WordSegmentation.java:215-268 | the triple summarizes the component with a chain of its candidates (`Summarizes`); the words are component words, the first starts at `s`, `e` is the largest end, and one candidate yields itself |
| Legacy.SummaryWords | src/main/java/WordSegmentation.java:258-261 | the words of a summary are component words, the first one starting at the span's start |
| Legacy.ComponentPath | src/main/java/WordSegmentation.java:244-257 | with a null result read as 0, the path rebuilt from a tied memo key is a non-empty chain of table words in reading order |
| Legacy.Segment | src/main/java/WordSegmentation.java:56-129 | the rebuilt index is exact for `minLength`, and the tokens come out of the nlp stages (`Pipeline`) over it; on the candidates the `checkIntersection` graph and test agree with `isNotIntersecting`; the spans are apart and each renders its own words; a null or empty input gives no tokens, a text without candidates is one token, and every token is "a", a unigram, or a stretch of the text |
| Legacy.OptComponents | src/main/java/WordSegmentation.java:98-102 | one triple per component, in order, each summarizing its component, with words of the rebuilt index |
| Legacy.IndexedWordsAreDictionaryWords | src/main/java/WordSegmentation.java:158-178 | a word of the rebuilt index is a unigram |

## Left out

- `loadWordList` (both classes): gzip resource reading, UTF-8 decoding and line parsing. The three tables are taken as given maps, and the legacy constructor is its datatype.
- `toString` and `ToStringBuilder` everywhere: these are presentation only.
- The tests in `WordSegmentationTest.java`: their expected tokens depend on the bundled frequency files.
- Floating point: scores, `log10`, the division in `penalize` and the tie tests `equals`/`Double.max` are exact `real` arithmetic. `Math.log10` and `Double.hashCode` are parameters.
- `OptimalPath.Div`: a zero predecessor score gives 0 here, where the source gives an infinity or NaN.
- `lowerTrim`: Unicode `toLowerCase().trim()` is a parameter; `replaceAll("'", "")` is modelled.
- Counts are unbounded integers. The 64-bit `Long` sums of `calculateNgrams` and the `Long` to `double` conversion are not modelled.
- The order of `HashMap`/`HashSet` iteration is an arbitrary choice (`Collections.Enumerate`, `:|`). It decides the order of each prefix's word list, the order of components, and which tied key `calculatePaths` picks.
- JavaUtil.StringHash: folds Dafny characters, which are Unicode scalar values, while Java's `String` counts UTF-16 code units. The hashes, offsets and lengths here (the unknown-word penalty among them) agree with the source only for text inside the Basic Multilingual Plane.
- The legacy graph (src/main/java/WordSegmentation.java:139) and the legacy predecessor test (src/main/java/WordSegmentation.java:227) call `checkIntersection`. The model builds both with `isNotIntersecting`, through `Components.ConnectedSets` and `OptimalPath.ComponentTable`. `Legacy.Segment` proves the two tests agree on every pair of candidates, through `Legacy.EdgeAgrees` and `Legacy.CheckIntersectionAgrees`.
- Legacy.ComponentPath: states that the path starts from some memo key tied with the optimum. The source takes the last tie of a value sort over `HashMap` entries, which is the last in bucket order and not always the largest key.
- OptimalPath.CalculatePaths: states that the reconstruction starts after some memo key holding the optimum, not the largest such key. Which one is last after the value sort depends on `HashMap` bucket order.
- The jgrapht `ConnectivityInspector`: its components are computed by an own merge algorithm and stated by postcondition (partition, connected, separated). The order of the components is not modelled. The `seen` set only removes duplicate edges and is left out.
- Candidates.MeaningfulWords: states the candidates as a set (membership iff `IsCandidate`) plus sortedness, not their multiplicities or the order among equal starts.
- `minLength ≥ 1` is a precondition of `meaningfulWords` and `segment`. The source never checks it, and `charAt(0)` fails on an empty prefix.
- The memo `HashMap` that `opt` fills in place is threaded through `OptimalPath.Opt` as a map value. The `path` list, mutated by appends, is likewise a sequence value.
- Optimality of the chosen chain against all chains, and that the chosen words cover their component, are not claimed. The skip rule and the reconstruction heuristics do not guarantee either.
- Legacy candidate generation is `Candidates.MeaningfulWords` over the rebuilt index. The legacy null test on `ngramDistribution.get` admits the same windows, because `Legacy.CalculateNgrams` proves both maps have the same keys. `pairDic.get(prefix)` returns that window's own suffix, because window positions are distinct.
- The legacy `opt(j, lst)` and `path(lst, j, memo)` wrappers and `_opt`/`_path` are the nlp `opt`/`path` code. `Legacy.OptComponent` calls `OptimalPath.Opt` on a fresh memo and `OptimalPath.ReadPath`. The null-to-0 substitution at src/main/java/WordSegmentation.java:248 is modelled, and `OptimalPath.OptValuePresent` shows it is never taken.
- Null dereferences inside `path` (unboxing a missing memo value) cannot happen in the model: `OptimalPath.MemoClosed` proves every lookup finds a value.

## Findings

| source | as written | input that shows it | evidently intended | confidence | as-written member | corrected member |
|---|---|---|---|---|---|---|
| src/main/java/vision/trademark/nlp/Position.java:32 | `Position.equals` accepts any `Position` subclass (`instanceof`), while `SuffixedPosition.equals` and `ScorePosition.equals` demand the same run-time class, so `equals` is not symmetric and equal objects can hash differently | `Position("ab",0,1)` equals `SuffixedPosition("ab",0,1,"cd")` but not conversely; their hash codes are 3013697 and 93428737 | `Position.equals` compares run-time classes like its subclasses, making `equals` symmetric and consistent with `hashCode` | not executed | Positions.EqualsAsymmetric, Positions.EqualButHashesDiffer | Positions.StrictEqualsContract |
