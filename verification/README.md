# Smart-contract audit helpers: synonyms, chained member access, invalid-code loop

A Dafny model of the three pieces of logic in `ai_audits/subnet_utils.py` that
score and prepare smart-contract vulnerability findings:

- **Synonym equivalence resolver** (`synonyms.dfy`, module `Synonyms`). `load_synonyms`
  turns the fixed synonym groups into an index. The index maps each
  `lower().strip()`-normalised label to every normalised label of the group(s) it
  belongs to. `is_synonyms(expected, answer)` normalises both labels with
  `strip().lower()`. It accepts equal labels, and otherwise looks the answer up in
  the expected label's set. The lazily built, cached index is a pure function of
  the group list here.
- **Chained member-access detector** (`ast_pattern.dfy`, module `AstPattern`).
  `has_chained_member_access(ast, min_depth)` collects every FUNCTION_CALL node. It
  follows each callee through consecutive MEMBER_ACCESS nodes and reports whether
  some run has at least `min_depth` of them and ends on an IDENTIFIER. The AST is a
  closed datatype.
- **Bounded generate/validate loop** (`invalid_code.dfy`, module `InvalidCodeLoop`).
  `get_invalid_code()` asks a generator for contract source up to `MAX_TRIES` times.
  It stops at the first attempt whose generator or compiler raises. A compiler
  rejection is packaged as a task record; a generator exception packages the
  previous candidate, which compiled (see "## Findings"). The generator is a function from the attempt number to an outcome
  (source text, or an exception). The compiler is a predicate `compiles(src)`:
  false means compiling raised. The budget is a parameter.

`text.dfy` (module `Text`) models the Python string operations these rely on:
`strip()` with Python's whitespace set, `lower()` and `splitlines()`.
`wrappers.dfy` holds `Option` and `Result`.

## Model

| member | source | states |
|---|---|---|
| Text.Lower | ai_audits/subnet_utils.py:94-95 | `lower()`: the body maps A-Z to a-z and keeps every other character; the contract states that the length is kept. StripLowerCommute states how it meets `strip()` |
| Text.Strip | ai_audits/subnet_utils.py:94-95 | `strip()`: the body is TrimEnd after TrimStart; TrimStartSpec and TrimEndSpec state what each half keeps and drops |
| Text.TrimStartSpec | ai_audits/subnet_utils.py:94 | the result is a suffix of the input; everything dropped is whitespace; the result does not start with whitespace |
| Text.TrimEndSpec | ai_audits/subnet_utils.py:94 | the result is a prefix of the input; everything dropped is whitespace; the result does not end with whitespace |
| Text.StripLowerCommute | ai_audits/subnet_utils.py:94-95 | `strip()` then `lower()` equals `lower()` then `strip()`, so keys built one way are found by queries normalised the other way |
| Text.LinesRoundTrip | ai_audits/subnet_utils.py:135 | joining the lines of `splitlines(keepends=True)` gives the text back |
| Text.LinesWellSplit | ai_audits/subnet_utils.py:135 | no line content holds a line boundary; only the last line may lack a boundary, and then it is not empty; "\r" followed by "\n" is one boundary |
| Text.LineCount | ai_audits/subnet_utils.py:135 | `len(code.splitlines())`: the body counts the lines of Lines; LinesRoundTrip and LinesWellSplit fix those lines, LineCountNoBreak gives the counts 0 and 1 |
| Text.LineCountNoBreak | ai_audits/subnet_utils.py:135 | the empty text has 0 lines; a non-empty text without a boundary has 1 line |
| Synonyms.Normalize | ai_audits/subnet_utils.py:94-95 | the query form `strip().lower()`; KeyIsNormalized states that it equals the key form `lower().strip()` |
| Synonyms.Prepare | ai_audits/subnet_utils.py:75 | `[x.lower().strip() for x in pairs]`: one key form per member, the length kept; KeyIsNormalized relates each entry to Normalize |
| Synonyms.Lookup | ai_audits/subnet_utils.py:98 | `.get(k, set())`: the body gives the key's set, or the empty set for a missing key; LoadSynonyms states what the sets hold and UnknownLabelIsFalse what a missing key means for IsSynonyms |
| Synonyms.AddOthers | ai_audits/subnet_utils.py:77-78 | `setdefault(variant, set()).add(other)` over all others: the variant becomes a key (when there is an other), its set grows by exactly the others, and every other key is unchanged |
| Synonyms.AddVariants | ai_audits/subnet_utils.py:76-78 | after the two inner loops, every variant of the group is a key, its set grows by exactly the group, and other keys are unchanged |
| Synonyms.LoadFrom | ai_audits/subnet_utils.py:74-78 | the outer loop adds exactly the labels of the groups as keys, and to each label exactly the labels it shares a group with |
| Synonyms.LoadSynonyms | ai_audits/subnet_utils.py:72-79 | the keys are exactly the normalised group labels; a key's set holds exactly the labels sharing some group with it, itself included; groups may overlap |
| Synonyms.IsSynonyms | ai_audits/subnet_utils.py:93-98 | true iff the normalised labels are equal, or share a group; an expected label with no entry never raises |
| Synonyms.KeyIsNormalized | ai_audits/subnet_utils.py:75 | the index key of a raw label equals that label's query normalisation |
| Synonyms.GroupIsIndexed | ai_audits/subnet_utils.py:72-79 | every member of a group is, normalised, a key whose set holds every normalised member of the group |
| Synonyms.SameGroupSynonyms | ai_audits/subnet_utils.py:93-98 | two members of one group are synonyms in both directions, whatever their case or surrounding whitespace |
| Synonyms.IsSynonymsSymmetric | ai_audits/subnet_utils.py:93-98 | swapping expected and answer never changes the answer |
| Synonyms.UnknownLabelIsFalse | ai_audits/subnet_utils.py:96-98 | when the normalised expected label is no key, the answer is true only for an equal normalised answer |
| Synonyms.NotTransitive | ai_audits/subnet_utils.py:72-79 | for any three labels with distinct normal forms, the groups [a, b] and [b, c] make a~b and b~c synonyms, but not a~c |
| Synonyms.ChainNotRelated | ai_audits/subnet_utils.py:72-79 | in the groups [a, b] and [b, c], with three distinct normal forms, no group holds both a and c |
| Synonyms.KnownSynonyms | ai_audits/subnet_utils.py:22-61 | the shipped groups, string for string and in source order; the contract states eight groups of at least two labels each, and ShippedGroupsSynonyms and InvalidCodeSynonyms instantiate IsSynonyms with them |
| Synonyms.ShippedGroupsSynonyms | ai_audits/subnet_utils.py:22-79 | with the shipped groups, any two labels of one group are synonyms in either order |
| Synonyms.InvalidCodeSynonyms | ai_audits/subnet_utils.py:48 | with the shipped groups, "Invalid code" and "Invalid" are synonyms both ways |
| AstPattern.FindCalls | ai_audits/subnet_utils.py:142-145 | the collected nodes are exactly the FUNCTION_CALL nodes of the tree, the root included |
| AstPattern.ChainDepth | ai_audits/subnet_utils.py:148-153 | the counter equals the length of the run of member accesses from the callee, and the node after the run is not a member access |
| AstPattern.ChainEnd | ai_audits/subnet_utils.py:148-153 | the loop stops on the node reached after exactly that many `.expression` steps |
| AstPattern.CallMatches | ai_audits/subnet_utils.py:155 | the test after the inner loop: the run counted by ChainDepth is at least `min_depth` and ChainEnd is an identifier; CallMatchesIsChainedCall states it in loop-free terms |
| AstPattern.AnyCallMatches | ai_audits/subnet_utils.py:147-157 | the loop with early return is true iff some collected call passes the test |
| AstPattern.RunLengthIsDepth | ai_audits/subnet_utils.py:151-153 | any run of member accesses followed by a non-member-access node has exactly the length the loop counts |
| AstPattern.CallMatchesIsChainedCall | ai_audits/subnet_utils.py:155 | the loop's test holds iff the callee starts a run of at least `min_depth` member accesses whose next node is an identifier |
| AstPattern.HasChainedMemberAccess | ai_audits/subnet_utils.py:141-157 | true iff some FUNCTION_CALL node of the tree has that pattern |
| AstPattern.Monotone | ai_audits/subnet_utils.py:155 | a match at `min_depth` d is a match at every d' <= d |
| AstPattern.NoCallNoMatch | ai_audits/subnet_utils.py:142-157 | a tree with no FUNCTION_CALL node yields false |
| AstPattern.NonIdentifierEndNeverMatches | ai_audits/subnet_utils.py:155 | a chain ending on a missing expression or a non-identifier never matches, whatever its depth |
| AstPattern.ChainShape | ai_audits/subnet_utils.py:151-153 | `base.n1...nd` has depth d and ends on `base`, and adds no calls |
| AstPattern.DepthBoundary | ai_audits/subnet_utils.py:151-156 | `x.n1...nd()` matches with `min_depth` d and not with d + 1 |
| AstPattern.CallTerminatedChain | ai_audits/subnet_utils.py:141-157 | `f().n1...nd()` matches iff `min_depth` <= 0: the outer chain ends on a call, and only the inner `f()`, with an empty run of member accesses, can match |
| AstPattern.DefaultDepthExamples | ai_audits/subnet_utils.py:141-157 | with the default `min_depth=2`, `a.b.c()` matches and `b.c()` does not |
| InvalidCodeLoop.TaskFor | ai_audits/subnet_utils.py:132-138 | the record built after the loop: the whole code, from_line 1, to_line the line count plus one, INVALID_CODE, RANDOM_TEXT; RecordFidelity states it of every record the loop returns |
| InvalidCodeLoop.AsWritten | ai_audits/subnet_utils.py:120-138 | the loop without a loop: the first stopping attempt decides between the `ValueError`, a record, and the unbound `code`; GetInvalidCode is proved equal to it, and the lemmas below state its cases |
| InvalidCodeLoop.Corrected | ai_audits/subnet_utils.py:120-138 | AsWritten with generator failures reported apart and an empty budget reported as exhaustion; GetInvalidCodeChecked is proved equal to it |
| InvalidCodeLoop.FirstStop | ai_audits/subnet_utils.py:122-128 | the first attempt that raises (generator or compiler), or the budget when none does |
| InvalidCodeLoop.GetInvalidCode | ai_audits/subnet_utils.py:120-138 | the loop's result and generator-call count equal the loop-free statement `AsWritten` |
| InvalidCodeLoop.AttemptsBounded | ai_audits/subnet_utils.py:121-130 | the generator is called at most N times, and at least once when N >= 1 |
| InvalidCodeLoop.ExhaustedIffAllCompile | ai_audits/subnet_utils.py:122-130 | for N >= 1 the `ValueError` is raised iff all N candidates were generated and compiled, and then after exactly N attempts |
| InvalidCodeLoop.RejectionEndsRun | ai_audits/subnet_utils.py:124-133 | a compiler rejection on attempt k ends the run after k + 1 generator calls; the record holds exactly that candidate |
| InvalidCodeLoop.RecordFidelity | ai_audits/subnet_utils.py:132-137 | every record has from_line 1, to_line = number of lines + 1, class INVALID_CODE, type RANDOM_TEXT |
| InvalidCodeLoop.UnboundCode | ai_audits/subnet_utils.py:122-133 | with N <= 0, or a generator that raises on the first attempt, `code` is read unbound |
| InvalidCodeLoop.StaleCandidate | ai_audits/subnet_utils.py:124-133 | a generator failure after a compiling attempt returns a record whose code compiles |
| InvalidCodeLoop.StaleCandidateExample | ai_audits/subnet_utils.py:124-133 | concrete run against a compiler that rejects some other source: "contract A {}" compiles, the generator then raises, and "contract A {}" is returned as invalid code; the corrected loop reports the generator fault after the same two attempts |
| InvalidCodeLoop.GetInvalidCodeChecked | ai_audits/subnet_utils.py:120-138 | corrected loop: a record only ever holds the candidate the compiler rejected on the last attempt; a generator failure is reported as such |
| InvalidCodeLoop.CorrectedRecordRejected | ai_audits/subnet_utils.py:120-138 | in the corrected statement, a record's code is the last attempt's candidate and the compiler rejected it |
| InvalidCodeLoop.CorrectedAgreesWithoutFaults | ai_audits/subnet_utils.py:120-138 | for a budget N >= 1, while the generator does not raise in the first N attempts, the corrected and the original loop agree |
| InvalidCodeLoop.CorrectedNeverUnbound | ai_audits/subnet_utils.py:120-138 | for every budget and every generator and compiler, the corrected loop never reads an unbound candidate |
| InvalidCodeLoop.CorrectedNoBudget | ai_audits/subnet_utils.py:121-133 | in both cases where the original reads `code` unbound, the corrected loop reports exhaustion (no budget) or the generator fault of the first attempt |

## Findings

| source | as written | input that shows it | evidently intended | confidence | as-written member | corrected member |
|---|---|---|---|---|---|---|
| ai_audits/subnet_utils.py:124-133 | an exception from `SolidityGenerator.generate_contract()` is caught by the same `except` as a compiler rejection. The record is then built from the previous attempt's `code`, which compiled. On the first attempt `code` is unbound. | attempt 1 generates "contract A {}" and it compiles; attempt 2's generator raises; the task says "contract A {}" is invalid code | a record only ever holds source the compiler rejected in the same attempt; a generator failure is reported, not packaged | high, not executed | InvalidCodeLoop.StaleCandidateExample | InvalidCodeLoop.GetInvalidCodeChecked |
| ai_audits/subnet_utils.py:121-133 | with `MAX_TRIES` <= 0 the loop body never runs and `ValidatorTask(contract_code=code, ...)` reads an unbound `code` | `MAX_TRIES=0` | report exhaustion of the budget | high, not executed | InvalidCodeLoop.UnboundCode | InvalidCodeLoop.CorrectedNoBudget |

## Left out

- `create_session` (ai_audits/subnet_utils.py:85-90): HTTP retry configuration, pure I/O.
- `SolcSingleton` and the import-time `solc.install_solc()` (ai_audits/subnet_utils.py:101-117): they drive an external compiler toolchain and download it. Only "compiling raises or not" is kept, as the `compiles` predicate.
- The `compiles` predicate does not distinguish a compiler rejection from a failure of the compiler tooling itself; the source catches both in one `except`.
- `SolidityGenerator.generate_contract` is not part of this model. It is the `gen` oracle, indexed by attempt number.
- `ValidatorTask`, `TaskType` and `KnownVulnerability` are not part of this model. They are a plain record and one-constructor enumerations.
- `find_node_with_properties` is not part of this model. It is modelled as a pre-order collection of every FUNCTION_CALL node, the root included. The order does not affect the result.
- The AST: a node is treated as false in `while current and ...` only when it is `None`. Node kinds other than call, member access and identifier are one `Other` kind with children.
- `ROLES` (ai_audits/subnet_utils.py:15-18): string constants with no behaviour.
- Reading `MAX_TRIES` from the environment (ai_audits/subnet_utils.py:121), including the `ValueError` of `int()` on a malformed value: the budget is a parameter.
- The lazy cache and its thread safety (ai_audits/subnet_utils.py:63-70, 82): the index is recomputed as a pure function of the groups. That gives the same answers.
- Text.Lower: through its helper LowerChar, only A-Z are lower-cased; Python's Unicode case mapping of other characters is not modelled.
- Strings are sequences of Unicode scalar values; lone surrogates, which a Python `str` can hold, are not modelled, and no encoding is modelled.
