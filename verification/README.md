# Verified model of the ARM emulator's authorization core

This Dafny project models the parts of the ARM emulator where a wrong branch changes who may do
what, and proves what those parts promise: the two wildcard matchers, the ABAC condition language
(lexer, recursive-descent parser, evaluator), scope inheritance, the authorization decision and the
feed published to data planes, and the state machines around them (role definitions and
assignments, vault soft-delete and recovery, access policies, long-running operations, the
controllable clock). `dafny verify dfyconfig.toml` checks the whole project.

The model keeps the source's form. Loops are methods with loops (`GlobMatchLoop`, `ActionMatches`,
`LexLoop`, `EffectiveAt`, `Evaluate`, `ApplyPolicyOp`), objects with fields are classes (`Clock`,
`Cursor`, `Collector`, `OperationTable`, `Store`, `VaultStore`), and pure code is functions. Each
method is proved to compute a specification function, except three that meet a relation: `NewContext`,
where Go's map order leaves a choice open, and `Decide` and `Evaluate`, whose answer carries an
explanation. The results are lemmas about those specifications, for all inputs, all runs, or all reachable states.

How the parts fit:

| file | content |
|---|---|
| `text.dfy` | string operations, with ASCII folding |
| `wildcard.dfy`, `actionpattern.dfy` | one wildcard relation, both matchers against it, and against each other |
| `scope.dfy` | canonical scopes, the prefix test, the ancestor chain, the tree order |
| `condition.dfy`, `lexer.dfy`, `grammar.dfy`, `parser.dfy`, `parsing.dfy`, `cursor.dfy`, `conditiontext.dfy`, `rendering.dfy`, `joining.dfy`, `errors.dfy` | the condition language from characters to trees and back, texts joined or guarded, and what a refused text is told |
| `evaluator.dfy`, `dependencies.dfy`, `meanings.dfy` | what a condition decides, what it reads, and every operator and quantifier from its text to its verdict |
| `directory.dfy`, `decision.dfy`, `service.dfy`, `decisionlaws.dfy`, `denylaws.dfy`, `feedlaws.dfy` | tables, the feed, the decision, how decisions move, where denies reach, and when the feed agrees |
| `roles.dfy`, `rolerequests.dfy`, `rolelaws.dfy`, `roleguard.dfy`, `roleinvariants.dfy`, `rolehistories.dfy` | role, assignment and deny handlers, what each request answers and stores, what every reachable state satisfies, what the deletion guard counts, which events break which invariant, and histories reaching the exceptions |
| `accesspolicies.dfy`, `vaults.dfy`, `vaultrequests.dfy`, `vaultlaws.dfy`, `vaultspellings.dfy` | vaults, tombstones and access policies, what each request answers and changes, whole histories, and what depends on spelling |
| `clock.dfy`, `operations.dfy` | the clock and the operations whose status is read off it |

Conventions. Strings are sequences of characters and `ToLower`, `EqualFold` and `NOCASE` all become
ASCII folding. A handler is one atomic step, and clock readings, generated ids and real time are
arguments. Tables are maps under the primary key or sequences in the order their rows were first
stored, which is the order lookups scan. The built-in role catalogue is an arbitrary list. What Go's
number and time parsers accept is a parameter (`Reader`), so nothing proved about conditions depends
on it.

## What the code does not promise

Several statements in the source or its documents hold only under a condition. The model follows
the code; the condition is proved exact unless the entry says otherwise, and where a history is needed
to leave it, one from an empty store over any built-in catalogue is given:

- `globMatch` tests "same character" before "is a star", so it misreads exactly the subjects that
  contain a literal `*` (`GlobExactIff`).
- Its comment (`internal/abac/eval.go:334`) calls the walk linear. The turns of its loop stay within
  the product of the two lengths (`GlobMatchLoop`), and no linear bound holds: on `*aa…ab` and a
  subject of twice as many a's they grow with the square (`QuadraticTurns`, `NotLinear`).
- A grant and a deny read one pattern alike on every `*`-free action exactly when it has no `?`
  (`GrantsAndDeniesAgreeIff`), and on every action exactly when it has no `?` and no `*`
  (`GrantsAndDeniesAlwaysAgreeIff`).
- `docs/parity.md:56` says a condition is refused with the offending position. That is the first word no
  condition goes on with, except that a missing value set is reported at the operator before it
  (`ErrorAtFirstBadWord`).
- `CanonicalScope` trims one `/` only, so it is not a normal form for scopes ending in two
  (`CanonicalIdempotentIff`), and a target longer than `//` that begins with it has the root twice in
  its chain (`ChainDistinctIff`).
- The feed's entries, read with their own deny lists, decide as `Evaluate` does in every reachable store
  exactly for callers whose ids all name one person (`FeedServesIff`), though the comment there says a
  deny on a group rides along (`GroupDenyMissedByFeed`). The published document also lists every deny
  reaching the scope (`internal/arm/feed.go:114-147`). A data plane that consults both never allows what
  `Evaluate` refuses (`DocumentIsSafe`); it refuses more, through exclusions, exactly for callers of more
  than one person (`DocumentServesIff`).
- `internal/arm/feed.go:41-43` says the data plane's own matcher applies unchanged to the deny list of an
  entry. For callers who are one person and actions without `*`, it does exactly when no deny uses `?`
  (`GlobReadingServesIff`).
- One question has one context exactly when no two of its attributes race for a key with different
  values (`OneContextIff`). All its contexts are read alike by every reference exactly when no such race
  is for a key some reference reads (`OneReadingIff`), and then it has one answer (`SameAnswer`,
  `Services.Evaluate`); that the answer differs otherwise is not claimed, since no operator may look at
  what differs.
- Deleting a role definition leaves a dangling assignment exactly when an id resolving to it was
  stored with a trailing `/`: resolution trims it, the `LIKE` guard does not (`DeleteDanglesIff`,
  `TrailingSlashDangles`). Along a history nothing ever dangles exactly when it holds no such deletion
  (`NothingDanglesIff`). The guard also counts other roles whose longer guid ends in this one, so the
  number it reports is right exactly when as many are missed as are stray (`GuardCountIff`), and it
  tells guids of one length apart exactly when the guid holds no `%` or `_`
  (`GuardTellsGuidsApartIff`); so a role nobody holds may be refused deletion (`StrayRefusesDeletion`).
- `docs/parity.md:54` says display names are unique. The index covers custom roles only: a custom role may
  be put under a built-in's name (`BuiltInNameIsAccepted`), and along a history the two lists keep their
  names apart exactly when no accepted PUT does that (`NamesApartIff`).
- The same line says `assignableScopes` is enforced. It is when an assignment is made; along a history
  every assignment stays at or beneath a scope its role declares exactly when no later PUT narrows the
  role away from one (`AllInPlaceIff`, `NarrowingMisplaces`) and none is made at a scope ending in two
  slashes that storing it one slash shorter moves out of place (`SlipsAtTwoSlashes`,
  `TrimmedScopeMisplaces`).
- An accepted role PUT is what its guid resolves to unless a row under another spelling of the guid
  comes first: the primary key keeps case, the lookups ignore it (`PutReadsBackIff`,
  `RespelledPutIsNotRead`).
- `docs/05-authorization.md:49` says duplicates are refused however the scope was spelled. That holds
  for the scope; another spelling of the role id makes a second grant of the same role
  (`DuplicateIff`, `RespelledGrantIsStored`).
- `docs/parity.md:66` says a vault is never both live and deleted. A lapsed tombstone is never removed,
  so along a history that holds exactly when no clock operation reopens the window of a name that is
  live again (`NeverBothIff`); a clock that does not run back never does (`NeverBoth`), SetOffset can
  (`BothAgainIff`). With subscription ids compared in any case it needs, besides, that vaults are put
  under one spelling of the id (`OneSpellingIff`, `TwoSpellingsBoth`): a deletion reserves the name
  under the id as it was spelled, and under no other spelling the name was never put under
  (`ReservedOnlyAsSpelled`).
- A recovered vault keeps its group, location, tags and properties, but its name comes back in the
  spelling of an older lapsed tombstone if one was left (`RecoverRestores`, `OlderSpellingReturns`).
- An operation completes when its delay has passed, except that a completion time of zero is read as
  already complete (`StartedUntilDelay`).
- `docs/05-authorization.md:35` says custom roles are not implemented, and
  `docs/06-keyvault-provider.md:24` that a vault create completes inline with 200. The code
  implements custom roles, and answers a create with 201 and an operation to poll.

## Model

| member | source | states |
|---|---|---|
| Wildcard.GlobMatchLoop | internal/abac/eval.go:336-359 | the two-pointer loop says yes only to a match, says yes to every match when the subject has no `*`, and takes at most (pattern length + 1) times (subject length + 1) turns |
| Wildcard.QuadraticTurns | internal/abac/eval.go:334-354 | on a star, n a's and a b against 2n a's the loop takes at least n times (n + 1) turns |
| Wildcard.NotLinear | internal/abac/eval.go:334-354 | whatever the slope, some pattern and subject take more turns than that slope times their lengths |
| Wildcard.WalkSound | internal/abac/eval.go:336-359 | from any loop head, a walk that succeeds is justified by a match of the rest or of a longer reach of the last star |
| Wildcard.WalkComplete | internal/abac/eval.go:336-359 | from any loop head, forgetting all stars but the last loses no match when the subject has no `*` |
| Wildcard.OlderStarCovered | internal/abac/eval.go:344-352 | whatever an earlier star could still reach, the newest star reaches too |
| Wildcard.GlobExactIff | internal/abac/eval.go:336-359 | the subjects read right under every pattern are exactly those without `*` |
| Wildcard.SuffixPattern | internal/store/roledefinitions.go:128-133 | a LIKE pattern of a percent sign and a text without wildcards is a suffix test |
| ActionPatterns.ActionMatches | internal/arm/denyassignments.go:94-112 | split, prefix, leftmost search and suffix together decide the star-only wildcard relation, case aside, for all inputs |
| ActionPatterns.LeftmostPiece | internal/arm/denyassignments.go:101-110 | placing a middle piece at its first occurrence loses no match |
| ActionPatterns.AnyMatch | internal/arm/denyassignments.go:114-121 | true exactly when some pattern of the list covers the action |
| ActionPatterns.GrantsAndDeniesAgreeIff | internal/arm/evaluate.go:122-139 | a grant and a deny read a pattern alike on every `*`-free action exactly when the pattern has no `?` |
| ActionPatterns.GrantsAndDeniesAlwaysAgreeIff | internal/arm/evaluate.go:122-139 | they read it alike on every action, with or without `*`, exactly when the pattern has neither `?` nor `*` |
| Scopes.ScopeChain | internal/arm/scope.go:45-60 | the list built by the loop contains exactly the canonical scopes that apply to the target |
| Scopes.ChainIsApplicability | internal/arm/scope.go:32-60 | the prefix test and the ancestor list are one relation, for all strings |
| Scopes.ChainNearestFirst | internal/arm/scope.go:45-60 | the chain starts at the target, ends at the root, and each later scope is an ancestor of each earlier one |
| Scopes.ScopeTreeOrder | internal/arm/scope.go:32-40 | inheritance is reflexive, transitive, antisymmetric up to canonical form, and scopes reaching one target are comparable |
| Scopes.SegmentBoundary | internal/arm/scope.go:29-40 | a sibling whose name extends another's does not inherit from it, a child does |
| Scopes.CanonicalIdempotentIff | internal/arm/scope.go:18-27 | canonicalising twice changes nothing exactly when the scope does not end in two slashes |
| Scopes.ChainDistinctIff | internal/arm/scope.go:45-60 | the chain repeats a scope exactly when the target begins with two slashes and is longer than them |
| Lexer.LexLoop | internal/abac/parse.go:71-130 | the loop computes the lexing function, tokens and error alike |
| Lexer.ScanAt | internal/abac/parse.go:75-126 | one turn of the loop reads what the specification reads at that offset |
| Lexer.ScanExact | internal/abac/parse.go:71-130 | a token is produced exactly when the text begins with a spelling of it that runs as far as it can |
| Lexer.LexExactIff | internal/abac/parse.go:71-130 | lexing gives a token list exactly when the list tiles the text: disjoint spans, only white space between, one EOF at the end |
| Lexer.LexWellFormed | internal/abac/parse.go:71-130 | positions strictly rise, stay within the text, and the only EOF is last, at the text's length |
| Lexer.LexErrorInText | internal/abac/parse.go:71-130 | a lexing error points into the text |
| Conditions.OperatorExactIff | internal/abac/parse.go:355-371 | a word is read as an operator exactly when it is that operator's documented name, case aside |
| Conditions.QuantifierExactIff | internal/abac/parse.go:376-395 | a word is read as a quantifier exactly when it is that quantifier's name, case aside |
| Parsing.ParseTokensIff | internal/abac/parse.go:248-451 | the parser accepts exactly the token lists the grammar derives, with the tree of the derivation: AND binds tighter than OR, both lean left |
| Parsing.OneTree | internal/abac/parse.go:248-307 | a token list has one tree, however it is derived |
| Parsing.OrComplete | internal/abac/parse.go:248-262 | every derivation standing in the token list, and not followed by a word, is parsed to its tree, to its end |
| Parsing.OrSound | internal/abac/parse.go:248-262 | every parse has a derivation with that yield and that tree |
| Cursors.Cursor.Next | internal/abac/parse.go:220-226 | returns the token under the cursor and never moves the cursor past EOF |
| Cursors.Cursor.ExpectPunct | internal/abac/parse.go:240-246 | consumes the mark or reports it at the current token, as specified |
| Cursors.Cursor.ParseLiteral | internal/abac/parse.go:433-451 | result and cursor are those of the specification |
| Cursors.Cursor.ParseQuantifier | internal/abac/parse.go:382-394 | a quantifier word is consumed with its colon, any other word is left for the operator |
| Cursors.Cursor.ParseValues | internal/abac/parse.go:400-424 | result and cursor are those of the specification, set or single literal |
| Cursors.Cursor.ParseComparison | internal/abac/parse.go:376-431 | result and cursor are those of the specification, error positions included |
| Cursors.Cursor.ParseMatches | internal/abac/parse.go:339-353 | result and cursor are those of the specification |
| Cursors.Cursor.ParsePredicate | internal/abac/parse.go:314-337 | result and cursor are those of the specification |
| Cursors.Cursor.ParseUnary | internal/abac/parse.go:280-307 | result and cursor are those of the specification |
| Cursors.Cursor.ParseAnd | internal/abac/parse.go:264-278 | the loop over AND accumulates to the left as specified |
| Cursors.Cursor.ParseOr | internal/abac/parse.go:248-262 | the loop over OR accumulates to the left as specified |
| Cursors.ParseCondition | internal/abac/parse.go:185-203 | lexing, parsing and the trailing-input check together compute the specified result |
| ConditionText.ParseIff | internal/abac/parse.go:185-203 | a text is accepted with a tree exactly when some tokens tile it and some derivation of them has that tree |
| ParseErrors.ErrorAtFirstBadWord | internal/abac/parse.go:185-451 | a text that lexes and is refused has a first word with which no condition goes on; the words before it begin one and go on with what the complaint asks for; the complaint fits that word and stands there, or at the operator when a quantifier's set is missing |
| ParseErrors.LexErrorAtFirstBadCharacter | internal/abac/parse.go:71-130 | a text that does not lex is refused where tokens and white space fill it up to, no token begins, and the rest draws the complaint |
| ParseErrors.DrawsOne | internal/abac/parse.go:71-130 | of the six complaints of the lexer a text draws one at most, told by its characters alone |
| ParseErrors.ParseErrorInText | internal/abac/parse.go:185-246 | every complaint points into the text: the lexer's own, or at one of its tokens |
| Rendering.LexPrint | internal/abac/parse.go:71-130 | printing words with white space between them, none needed where a word does not run on, and lexing gives back those words, at their places |
| Rendering.DerivationParses | internal/abac/parse.go:185-451 | any derivation of the grammar, its words in any case, printed in any spacing parses to its tree |
| Rendering.PrintParses | internal/abac/parse.go:185-451 | a tree printed with every operand parenthesised, spaced in any way its words allow, parses back to exactly that tree |
| Rendering.ParsedIsSane | internal/abac/parse.go:376-431 | every parsed tree has values in each comparison, braces round a quantifier's set, and literals and keys that can be written |
| Rendering.ParseImageIff | internal/abac/parse.go:185-451 | the trees parsing can return are exactly the sane ones |
| Rendering.RewritingIsFaithful | internal/abac/parse.go:185-451 | any accepted condition can be rewritten in canonical form without changing how it is read |
| Joining.JoinedParses | internal/abac/parse.go:248-307 | two accepted texts in parentheses joined by AND or OR parse to what joins their trees |
| Joining.ConjoinParses | internal/abac/parse.go:264-307 | two accepted texts in parentheses joined by AND parse to the conjunction of their trees |
| Joining.GuardParses | internal/abac/eval.go:6-10 | the guard as conditions write it, a negated ActionMatches or the rest in parentheses, parses to that tree |
| Joining.NegatedParses | internal/abac/parse.go:280-307 | an accepted text in parentheses after an exclamation mark parses to the negation of its tree |
| ConditionText.BlankIff | internal/abac/parse.go:183-188 | trimming leaves nothing of exactly the texts of spaces, tabs, line ends, vertical tabs and form feeds |
| ConditionText.EmptyIsRefused | internal/abac/parse.go:183-188 | such a text is refused as empty, at its start |
| Evaluator.NewContext | internal/abac/eval.go:33-39 | every supplied attribute is kept under its canonical key, and every key holds a value supplied for it |
| Evaluator.OneContextIff | internal/abac/eval.go:33-39 | the attributes have one possible context exactly when no two keys of one canonical form carry different attributes |
| Evaluator.OneReadingIff | internal/abac/eval.go:33-46 | every reference reads the same in all possible contexts exactly when no two keys racing for one some reference reads carry different values |
| ConditionMeanings.QuestionIsSeen | internal/abac/eval.go:33-44 | a condition sees the question's action and suboperation, and under a reference the attribute supplied for it, in any case and with or without the at sign, and no other |
| ConditionMeanings.KeysTellApartIff | internal/abac/eval.go:41-44 | attribute keys ignore spaces and case, and nothing else |
| ConditionMeanings.StringOperators | internal/abac/eval.go:191-254 | from its text: each of the eight string and two GUID operators, by its documented name in any case, on one string value: equality, folded equality, prefix, wildcard match, and their negations |
| ConditionMeanings.NumericOperators | internal/abac/eval.go:199-204 | from its text: each of the six numeric operators on a value that is a number or reads as one |
| ConditionMeanings.DateTimeOperators | internal/abac/eval.go:205-212 | from its text: each of the six date operators on a value that is an instant or reads as one |
| ConditionMeanings.BoolOperators | internal/abac/eval.go:213-221 | from its text: both truth operators on a value that is a truth value or one of the twelve words that read as one |
| ConditionMeanings.DecimalsAreNumbers | internal/abac/parse.go:71-130 | whole numbers and decimals, with or without a minus sign, are number literals |
| ConditionMeanings.WrongTypeFails | internal/abac/eval.go:188-233 | from its text: a value or operand of the wrong type fails every operator, negative ones included |
| ConditionMeanings.NotOneValueFails | internal/abac/eval.go:123-139 | from its text: an attribute that is absent or a list of any length but one fails every operator without a quantifier |
| ConditionMeanings.QuantifiersByName | internal/abac/eval.go:131-151 | from its text: each of the four quantifiers by its name, over every list of values and every set: the first word counts the attribute's values, the second the set's |
| ConditionMeanings.MatchersByName | internal/abac/eval.go:91-97 | from its text: ActionMatches matches the action, SubOperationMatches the suboperation |
| ConditionMeanings.ExistsByName | internal/abac/eval.go:99-102 | from its text: Exists holds of every supplied attribute but the empty list |
| ConditionMeanings.ConnectivesMean | internal/abac/eval.go:87-89 | two accepted texts joined by OR hold when either does, by AND when both do, and a negated one when it does not |
| Evaluator.OppositeIsNegation | internal/abac/eval.go:191-271 | an operator and its opposite differ exactly on comparable operands, and are both false on the rest |
| Evaluator.AllOfAllOpposite | internal/abac/eval.go:123-186 | all-of-all under the opposite operator holds exactly when everything compares and any-of-any fails |
| Evaluator.QuantifierOrder | internal/abac/eval.go:123-186 | on a present attribute all-of-all implies the mixed quantifiers, which imply any-of-any; on single values all agree |
| Evaluator.LikeIsGeneral | internal/abac/eval.go:235-254 | Like without wildcards is equality without case, and with one star at the end is the prefix test without case |
| DecisionLaws.GuardTextScopes | internal/abac/eval.go:6-10 | a condition written as a guard holds exactly when the pattern misses the action or the rest holds |
| Dependencies.Attributes | internal/abac/eval.go:56-85 | lists every reference of the tree once, in order of first occurrence |
| ConditionMeanings.ListedAsWritten | internal/abac/eval.go:54-85 | an accepted condition lists the attributes of its text, each once, in the order of first writing |
| Dependencies.Collector.Walk | internal/abac/eval.go:67-83 | the closure over seen and out appends exactly the references not seen before |
| Dependencies.ListedKeyIsRead | internal/abac/eval.go:33-44 | an attribute supplied under its listed name, in any case and with or without the at sign, is the one the condition reads |
| Dependencies.AttributesSuffice | internal/abac/eval.go:47-121 | contexts with one action and suboperation that agree on the listed references get one verdict |
| Directory.FindRoleIsFirst | internal/arm/roles.go:131-138 | the definition found is the first row with that guid in any case |
| Directory.DeniesInOrder | internal/arm/denyassignments.go:183-199 | the reaching denies are read off the rows from left to right, each that applies in its place |
| DenyLaws.ListedIff | internal/arm/denyassignments.go:172-199 | a stored deny is listed at a target exactly when the target's chain holds its canonical scope, and for a pinned one when it is the chain's first |
| DenyLaws.DeniedIff | internal/arm/evaluate.go:55-70 | a caller is denied exactly when some stored deny that reaches the scope refuses it the action |
| DenyLaws.DeniesInherit | internal/arm/denyassignments.go:172-181 | what an unpinned deny refuses at a scope is refused at every scope beneath it |
| DenyLaws.PinnedDeniesStay | internal/arm/denyassignments.go:172-181 | where only pinned denies refuse, the action is denied at their own canonical scopes and nowhere else |
| DenyLaws.EveryoneIsRefused | internal/arm/denyassignments.go:145-170 | a deny on the nil GUID refuses its actions to everybody not excluded, and an excluded caller nothing |
| DenyLaws.NobodyIsRefused | internal/arm/evaluate.go:111-119 | a caller all of whose ids are empty is never allowed and on no list of principals |
| DenyLaws.SeedMeaning | internal/store/denyassignments.go:62-90 | seeding is refused exactly without a scope or principals, changing nothing; else the deny takes the place of the row of its exact name or comes last, every other row staying where it is |
| DenyLaws.RemoveMeaning | internal/store/denyassignments.go:121-132 | removing takes out the rows of that name in any case, wherever they are, and keeps the others in order |
| DenyLaws.DenyNamesStayDistinct | internal/store/denyassignments.go:31-47 | over every history no two denies share a name |
| DenyLaws.DenyEffectIff | internal/arm/evaluate.go:51-70 | a deny seeded under a new name refuses exactly the permissions it reaches and denies, and leaves every other decision |
| DenyLaws.UndenyEffectIff | internal/arm/evaluate.go:51-70 | removing denies never refuses what was allowed, and a caller stays denied exactly by a deny of another name |
| Services.DenyAssignmentsAt | internal/arm/denyassignments.go:183-199 | the loop lists the denies reaching the scope, in order |
| Services.AppliesToPrincipalLoop | internal/arm/denyassignments.go:149-170 | a deny names a caller exactly when listed or universal, and not excluded |
| Services.DeniesActionLoop | internal/arm/denyassignments.go:127-143 | a deny refuses an action exactly when it names the caller and some permission set matches without carving it out |
| Services.EffectiveAt | internal/arm/feed.go:49-101 | one entry per assignment that covers the scope, resolves and parses, in order, with flattened actions and its principal's denies |
| Services.GrantsActionLoop | internal/arm/evaluate.go:122-139 | an entry grants exactly when some data action matches and no excluded one does |
| Services.Evaluate | internal/arm/evaluate.go:51-109 | the answer to a question is the decision on a context built from its attributes, and on every such context when no race is for a key some reference reads with different values |
| Services.Decide | internal/arm/evaluate.go:55-109 | allowed exactly when no deny applies and some held, granting entry's condition holds; the answer names the first deny, the first such entry, or every entry that failed on its condition, in order |
| Decisions.SameAnswer | internal/arm/evaluate.go:51-109 | requests whose attributes are read alike by every reference have the same answers, explanation included |
| FeedLaws.FeedServesIff | internal/arm/feed.go:49-101 | over every built-in catalogue: the entries decide as Evaluate does, in every store reached from the empty one and for every scope and context, exactly for callers whose non-empty ids are one id in any case |
| FeedLaws.FeedFaithful | internal/arm/feed.go:49-101 | for such a caller, what the feed allows is what Evaluate allows |
| FeedLaws.FeedFaithfulUndivided | internal/arm/feed.go:85-97 | the same for any caller none of whose denies treats it and its held principals differently |
| FeedLaws.GroupDenyMissedByFeed | internal/arm/feed.go:38-44 | over every catalogue, three requests from an empty store make the entry allow what Evaluate refuses through a deny on the caller's group |
| FeedLaws.ExclusionMissedByFeed | internal/arm/feed.go:38-44 | over every catalogue, and for any two of a caller's ids, three requests from an empty store make the entry refuse what Evaluate allows through an exclusion of the other id |
| FeedLaws.GlobReadingServesIff | internal/arm/feed.go:38-44 | over every catalogue: for one-person callers and `*`-free actions, reading the denied list with the grant's matcher decides as Evaluate does in every reachable store whose denies mention only given patterns, exactly when these have no `?` |
| FeedLaws.DocumentServesIff | internal/arm/feed.go:111-147 | over every catalogue: entries and published denies together decide as Evaluate does, in every reachable store, exactly for callers who are one person |
| DecisionLaws.MoreDeniesNarrow | internal/arm/evaluate.go:59-70 | a longer list of denies never turns a refusal into a permission |
| DecisionLaws.MoreAssignmentsWiden | internal/arm/evaluate.go:72-109 | one more assignment anywhere in the table never turns a permission into a refusal |
| DecisionLaws.ConjoinMeansBoth | internal/arm/evaluate.go:86-95 | a conjoined condition holds exactly when both conditions do |
| DecisionLaws.NarrowingNeverWidens | internal/arm/evaluate.go:72-109 | conjoining a condition onto a stored assignment never widens any decision |
| DecisionLaws.FlattenIff | internal/arm/feed.go:85-89 | flattened permission blocks grant an action exactly when some block grants it and none carves it out |
| DecisionLaws.DecisionsInherit | internal/arm/evaluate.go:51-109 | what a caller may do at a scope it may do beneath it, exactly unless a deny reaches it there |
| DecisionLaws.BrokenRowsGrantNothing | internal/arm/feed.go:56-84 | an assignment whose role no longer resolves or whose condition no longer parses changes no decision |
| DecisionLaws.AnswerMeaning | internal/arm/evaluate.go:55-109 | the reason of an answer fits its verdict: it names a deny that reaches and refuses, an entry that is held, grants and has its condition met, or exactly the held, granting entries whose condition failed |
| RoleTables.Store.BuiltIn | internal/arm/roles.go:131-138 | the loop finds the first built-in with that guid |
| RoleTables.Store.PutRoleDefinition | internal/arm/customroles.go:70-154 | checks in order, then an upsert under the exact guid, refused when another row has the name |
| RoleTables.Store.DeleteRoleDefinition | internal/arm/customroles.go:159-195 | refuses built-ins and counted roles, else removes every spelling of the guid |
| RoleTables.Store.CanAssignAt | internal/arm/customroles.go:200-210 | built-ins anywhere, custom roles exactly at or beneath a declared scope |
| RoleTables.Store.CreateRoleAssignment | internal/arm/authorization.go:206-287 | role, scope and condition checks in order, then the insert with its defaults, refused on a name or triple already stored |
| RoleTables.Store.DeleteRoleAssignment | internal/store/resources.go:142-151 | removes exactly the assignment of that name |
| RoleTables.Store.SeedDenyAssignment | internal/arm/denyassignments.go:372-423 | refused without a scope or principals, else upserted under its exact name in the place that name has, its scope stored with one slash trimmed |
| RoleTables.Store.DeleteDenyAssignment | internal/store/denyassignments.go:121-132 | removes the denies of that name in any case, and no others |
| RoleRequests.PutAnswers | internal/arm/customroles.go:70-154 | a role PUT is stored exactly when the guid is no built-in's, the body is whole and no row of another guid has the name; each refusal is the first of these that fails, and changes nothing |
| RoleRequests.PutStores | internal/store/roledefinitions.go:48-72 | a stored PUT writes the row of its exact guid in place, keeping its creation time, or adds one; no other row moves |
| RoleRequests.DeleteAnswers | internal/arm/customroles.go:159-195 | each answer of a role deletion by its exact condition, and which rows are left |
| RoleRequests.DeleteInOrder | internal/store/roledefinitions.go:112-124 | what a deletion keeps stays in order |
| RoleRequests.AssignAnswers | internal/arm/authorization.go:206-287 | an assignment is stored, last and as the row its fields and defaults make, exactly when its role resolves and may be assigned there, its condition and version are in order, and neither its name nor its grant is taken; each refusal by its exact condition |
| RoleRequests.BuiltInsAreNotShadowed | internal/arm/customroles.go:24-39 | a guid resolves exactly when some role has it, and to a built-in whenever one does |
| RoleLaws.NothingDangles | internal/arm/authorization.go:228-265 | from an empty store, in every history whose role ids lack a trailing slash, every assignment's role resolves and its condition parses |
| RoleLaws.FeedIsComplete | internal/arm/feed.go:59-84 | in those histories the feed is exactly the assignments covering the scope, one entry each, in order, each with its own fields, its role's name and permissions, its principal's denies and the attributes its condition reads |
| RoleLaws.EntryListsItsReads | internal/arm/feed.go:66-84 | the attributes an entry lists are all its condition reads: contexts that agree on them give it one verdict |
| RoleLaws.StepKeepsSound | internal/arm/customroles.go:159-195 | each request whose role id has no trailing slash keeps every assignment resolvable and parseable, when no stored id has one either |
| RoleLaws.DeleteGuardIff | internal/store/roledefinitions.go:128-133 | for a plain guid, deletion counts an assignment resolving to that role exactly when its id has no trailing slash |
| RoleGuard.CountedIff | internal/store/roledefinitions.go:128-133 | for a plain guid and any assignment: it is counted exactly when it is the role's own without a trailing slash, or its longer guid ends in this one |
| RoleGuard.GuardCountIff | internal/store/roledefinitions.go:125-133 | the count is the number of the role's assignments exactly when as many are missed as strays are counted |
| RoleGuard.DeleteRefusedIff | internal/arm/customroles.go:159-184 | a deletion is refused for assignments exactly when the role is a stored custom one with such an own or stray assignment |
| RoleGuard.GuardTellsGuidsApartIff | internal/store/roledefinitions.go:128-133 | the guard tells a guid from every other of its length exactly when it holds no percent sign and no underscore |
| RoleLaws.DeleteDanglesIff | internal/arm/customroles.go:176-194 | an accepted deletion leaves a dangling assignment exactly when some id of that role ends in a slash |
| RoleInvariants.SoundStepIff | internal/arm/customroles.go:159-195 | one request breaks that every assignment resolves and parses exactly when it is an accepted deletion of a role some id ending in a slash resolves to |
| RoleInvariants.NothingDanglesIff | internal/arm/customroles.go:159-195 | along every history from an empty store no assignment ever dangles exactly when no such deletion is in it |
| RoleInvariants.NamesStepIff | internal/store/roledefinitions.go:28-44 | one request gives a custom role a built-in's name exactly when it is an accepted PUT under that name |
| RoleInvariants.NamesApartIff | internal/store/roledefinitions.go:28-44 | along every history from an empty store names stay apart across both lists exactly when no such PUT is in it |
| RoleInvariants.InPlaceStepIff | internal/arm/customroles.go:197-210 | one request takes an assignment out of its role's assignable scopes exactly when it is a PUT the guid resolves to that declares no scope over it, or a creation whose trimmed scope is no longer covered |
| RoleInvariants.AllInPlaceIff | internal/arm/customroles.go:197-210 | along every history from an empty store every assignment lies at or beneath a scope its role declares exactly when no such request is in it |
| RoleInvariants.SlipsAtTwoSlashes | internal/arm/authorization.go:206-287 | a creation can do that only at a scope ending in two slashes |
| RoleHistories.TrailingSlashDangles | internal/arm/customroles.go:42-48 | from an empty store: define, assign with a trailing slash, delete, and the assignment dangles |
| RoleHistories.RespelledPutIsNotRead | internal/store/roledefinitions.go:48-91 | from an empty store: a second definition under the guid respelled is accepted, and the guid still resolves to the first |
| RoleHistories.RespelledGrantIsStored | internal/store/resources.go:112-126 | from an empty store: one role granted twice to one person at one scope, by two ids of it, is stored twice |
| RoleHistories.StrayRefusesDeletion | internal/store/roledefinitions.go:125-133 | from an empty store: two roles, one assigned, its guid matching the other's LIKE pattern; deleting the other is refused for one assignment though none resolves to it |
| RoleHistories.RootReached | internal/arm/authorization.go:206-287 | over every catalogue, three requests reach a store with one custom role, one grant and one deny at the root |
| RoleHistories.BuiltInNameIsAccepted | internal/store/roledefinitions.go:28-44 | from an empty store: a custom role under a built-in's name, in any case, is accepted |
| RoleHistories.NarrowingMisplaces | internal/arm/customroles.go:70-154 | from an empty store: define, assign at the root, put again for a scope below, and the assignment lies outside its role's scopes |
| RoleHistories.TrimmedScopeMisplaces | internal/arm/authorization.go:206-287 | from an empty store: a role declared for a scope ending in two slashes and assigned there is stored outside it |
| RoleLaws.KeysStayUnique | internal/store/roledefinitions.go:28-44 | over every history assignment names, grant triples, role guids and role names stay unique and no custom role has a built-in's guid |
| RoleLaws.PutReadsBackIff | internal/store/roledefinitions.go:48-91 | an accepted PUT is what the guid resolves to exactly when no other spelling of it is stored first |
| RoleLaws.DuplicateIff | internal/store/resources.go:112-126 | of two acceptable grants the second is a duplicate exactly when scope (however spelled), role id and principal are the first one's |
| RoleLaws.UnassignUndoesAssign | internal/store/resources.go:142-151 | deleting an assignment by name restores the tables from before its creation |
| RoleLaws.DeleteUndoesPutIff | internal/arm/customroles.go:159-195 | deleting a new role restores the tables, and is accepted exactly when no assignment counts against it |
| RoleLaws.AssignmentEffectIff | internal/arm/authorization.go:206-287 | a new assignment changes a decision exactly for its principal, at and beneath its scope, for what its role grants while its condition holds and no deny applies |
| AccessPolicies.ApplyPolicyOp | internal/arm/keyvault.go:331-370 | the loops compute the specified list, absent lists being empty: after "replace" it is the incoming one, after "remove" the old one without the named objects, after "add" each named object has its last incoming entry and every other what it had |
| AccessPolicies.RemoveInOrder | internal/arm/keyvault.go:341-352 | what a removal keeps stays in order |
| AccessPolicies.AddOne | internal/arm/keyvault.go:355-367 | overwrites the first entry of the same object in place, else appends |
| AccessPolicies.AddMeaning | internal/arm/keyvault.go:353-369 | after an add each named object has its last incoming entry, every other object what it had |
| AccessPolicies.RemoveMeaning | internal/arm/keyvault.go:341-352 | after a remove the named objects are gone and every other object has what it had |
| AccessPolicies.Overwrite | internal/arm/keyvault.go:355-367 | adding to a list naming every incoming object moves no entry and replaces only first occurrences |
| AccessPolicies.AddIsIdempotent | internal/arm/keyvault.go:353-369 | adding the same entries twice is adding them once |
| AccessPolicies.RemoveUndoesAdd | internal/arm/keyvault.go:341-369 | removing what was just added is removing it from the original list |
| AccessPolicies.AddKeepsDistinct | internal/arm/keyvault.go:353-369 | distinct object ids stay distinct under an add |
| VaultTables.VaultStore.PutVault | internal/store/vaults.go:33-50 | defaults filled in, then an upsert that keeps the stored spelling and creation time |
| VaultTables.VaultStore.GetDeletedVault | internal/store/deletedvaults.go:84-93 | finds a tombstone exactly while its window is open |
| VaultTables.VaultStore.SoftDeleteVault | internal/store/deletedvaults.go:44-71 | moves the row to a tombstone closing after the retention days |
| VaultTables.VaultStore.PurgeVault | internal/store/deletedvaults.go:116-128 | removes the tombstone and reports whether there was one |
| VaultTables.VaultStore.RecoverVault | internal/store/deletedvaults.go:131-160 | moves an open tombstone back to the live table, else changes nothing |
| VaultTables.VaultStore.HandlePut | internal/arm/keyvault.go:170-268 | create, update, recover, reserved name and every refusal, in the handler's order |
| VaultTables.VaultStore.HandleDelete | internal/arm/keyvault.go:151-164 | soft-deletes a live vault, else changes nothing |
| VaultTables.VaultStore.HandlePurge | internal/arm/deletedvaults.go:106-126 | purges exactly the tombstones still in their window |
| VaultTables.VaultStore.HandleEdit | internal/arm/keyvault.go:272-326 | rewrites a live vault's policy list and nothing else |
| VaultRequests.OthersUntouched | internal/arm/keyvault.go:130-326 | no event changes a vault it does not name, or a group unless it is a group request; deleting a group leaves its vaults |
| VaultRequests.GroupExistsIff | internal/store/resources.go:20-75 | over every history a group is there exactly when an accepted PUT made it, or it was there, and nothing deleted it since |
| VaultRequests.PutAnswers | internal/arm/keyvault.go:170-268 | each answer of a vault PUT by its exact condition, and that only creating, updating and recovering change anything |
| VaultRequests.PutStores | internal/store/vaults.go:33-50 | what an accepted PUT stores, field by field with the defaults, keeping spelling and creation time of a vault already there |
| VaultRequests.PurgeMeaning | internal/arm/deletedvaults.go:106-126 | a purge in the window takes away the tombstone and nothing else, any other changes nothing |
| VaultRequests.PurgedIsGone | internal/store/deletedvaults.go:116-128 | through every later history without a PUT of a purged name, under any clock, there is nothing to recover and an ordinary PUT creates it afresh |
| VaultRequests.EditStores | internal/arm/keyvault.go:272-326 | an edit rewrites the list of a live vault as its kind says, and nothing else; the three kinds are the only ones |
| VaultRequests.DeleteMeaning | internal/arm/keyvault.go:151-164 | a delete of a live vault empties its key and touches no other, any other delete changes nothing |
| VaultLaws.NeverBoth | internal/store/deletedvaults.go:44-160 | over every history under a clock that does not run back, no name is both live and recoverable |
| VaultLaws.NeverBothIff | internal/store/deletedvaults.go:44-160 | along any history under any clock, no name is ever both live and recoverable exactly when no clock operation in it reopens the window of a live name |
| VaultLaws.StepExclusiveIff | internal/store/deletedvaults.go:84-93 | one event breaks that exactly when it moves the clock back inside the window of a tombstone whose name is live |
| VaultSpellings.NeverBothInAnyCase | internal/arm/keyvault.go:200-226 | with one spelling of the subscription id in PUTs, not even with ids compared in any case |
| VaultSpellings.OneSpellingIff | internal/arm/keyvault.go:200-226 | every forward history from an empty store that puts vaults under given spellings is free of that, ids compared in any case, exactly when only one of them is the configured subscription |
| VaultSpellings.TwoSpellingsBoth | internal/arm/keyvault.go:200-226 | from an empty store: delete a vault, put its name under another spelling of the id, and it is live and recoverable |
| VaultLaws.BothAgainIff | internal/store/deletedvaults.go:84-93 | after a delete, a lapse and a new create, the name is recoverable as well exactly when the next clock operation goes back inside the old window, which SetOffset can |
| VaultLaws.DeletedIsHeld | internal/store/deletedvaults.go:44-93 | through any requests but a recover or purge of the name, the tombstone stays exactly the deleted vault until its window closes |
| VaultLaws.NameIsReserved | internal/arm/keyvault.go:203-220 | during the window an ordinary PUT changes nothing, and a valid one is answered with the conflict |
| VaultLaws.RecoverRestores | internal/arm/keyvault.go:203-220 | a recover in the window restores the vault exactly, but for its creation time, and its name exactly when no other spelling was left under its key |
| VaultLaws.ReservedIffInWindow | internal/arm/keyvault.go:200-226 | whatever the clock does, an untouched deleted name is reserved exactly while the clock reads before the window's end, and can be created afterwards |
| VaultSpellings.ReservedOnlyAsSpelled | internal/store/deletedvaults.go:26-40 | all through the window a PUT is refused for the reservation exactly when it spells the subscription id as the deletion did; under another spelling, under which the name was never put, it makes the name live and recoverable |
| VaultSpellings.OlderSpellingReturns | internal/store/deletedvaults.go:51-64 | from an empty store: a name created, deleted, lapsed, created and deleted in another spelling is recovered in the first |
| Clocks.Clock.Now | internal/clock/clock.go:28-35 | the frozen reading, or real time plus the offset |
| Clocks.Clock.SetOffset | internal/clock/clock.go:38-43 | sets the offset and unfreezes |
| Clocks.Clock.Advance | internal/clock/clock.go:47-55 | moves the frozen reading or the offset |
| Clocks.Clock.Freeze | internal/clock/clock.go:58-66 | stops the clock at its reading, once |
| Clocks.Clock.Unfreeze | internal/clock/clock.go:70-78 | resumes from the frozen reading |
| Clocks.Clock.State | internal/clock/clock.go:81-88 | the reported offset would show the reported time on a running clock |
| Clocks.StepForwardIff | internal/clock/clock.go:28-78 | for each operation, exactly when it does not move time back; freezing and thawing leave the reading as it is |
| Clocks.TimeIsConserved | internal/clock/clock.go:47-78 | a run without SetOffset adds exactly its advances and the real time spent unfrozen |
| Clocks.ForwardRuns | internal/clock/clock.go:28-78 | the reading never decreases over a forward run |
| Operations.OperationTable.CreateOperation | internal/store/operations.go:58-71 | records the operation with its defaults unless the id is taken |
| Operations.OperationTable.StartOperation | internal/arm/operations.go:30-37 | records an operation completing after the configured delay |
| Operations.OperationTable.OperationInFlight | internal/store/operations.go:89-95 | true exactly when some operation on the resource is InProgress |
| Operations.CreatedIsFound | internal/store/operations.go:56-71 | an operation keeps an id of its own or gets the fresh one, and is found there with its fields, created now, complete at its time or, without one, now |
| Operations.PollOutcomeIsFinal | internal/arm/operations.go:67-83 | once a poll stops answering 202 its answer never changes in a forward run |
| Operations.PollMeaning | internal/arm/operations.go:67-128 | in every run from an empty table a poll answers by the recorded completion time and failure code under the operation's own subscription, and not found under another |
| Operations.IdsStayDistinct | internal/store/operations.go:42-71 | operation ids stay unique over every history |
| Operations.SettledStaysSettled | internal/store/operations.go:89-95 | a resource with nothing running stays so until an operation is started on it |
| Operations.StartedUntilDelay | internal/store/operations.go:32-71 | through every later run an operation started under a new id stays as recorded and is answered 202 exactly until its delay has passed, then 200; a completion time of zero is read as already complete |
| Operations.InFlightUntilDelay | internal/store/operations.go:89-95 | a resource with nothing running has something in flight from the start of an operation on it exactly until its delay has passed |

## Left out

- HTTP routing, JSON encoding and decoding, status-code tables, headers and poll URLs: wire shape only.
- Errors of the database itself, and SQL text: tables are sequences and maps with their uniqueness rules.
- Interleavings of handlers: putVault and the role handlers make several store calls without one transaction, so results over runs speak of requests served one after another.
- Floating-point rounding, NaN and infinities, and the number and date formats Go accepts: numbers are reals and instants integers, read by an arbitrary `Reader`.
- Unicode case folding and byte offsets of multi-byte characters: folding is ASCII and positions count characters.
- 64-bit wrap-around of clock readings and completion times: integers are unbounded.
- Attribute values of JSON types no operator reads are one opaque value; `Condition.Evaluate` on a nil context is an evaluation with the empty one.
- Evaluator.NewContext: does not say which of two supplied keys with one canonical form wins, because Go visits the map in no fixed order.
- The `condition` and `conditionVersion` fields of deny-assignment permissions, which the evaluator ignores, and the display fields of denies.
- Descriptions, `createdBy` and `updatedAt` of assignments, which nothing reads back into a decision.
- The generated name of a deny seeded without one is an argument. Denies are listed in the order first stored, where the store orders by creation time and then name; the two agree while the clock moves forward between seedings and no name is seeded in a second spelling.
- The listing order of custom roles (creation time, then guid): no decision reads it, and lookups scan rows in the order stored.
- The action-level entry point `Denies` (`internal/arm/denyassignments.go:204-215`), the read-only listing handlers and their filters, and `VaultConfigAt`: short projections of the tables.
- The provisioning state and default URI filled in when a vault is rendered, and the operation a vault PUT or purge starts: operations are modelled on their own and touch no vault table.
- Members of the vault properties document the handlers pass through unread are one opaque text.
- The built-in role catalogue's contents, configuration limits (the retention window is any number of days), TLS, authentication, fabric capacities, metadata and fault injection.
