# Dialog DB in Dafny

Dialog DB keeps facts (attribute, entity, value) in one ordered search tree, answers
selectors and Datalog-style rule bodies over them, publishes versions through content-addressed
blocks, and resolves delegated access. This project models the parts of it that carry hard
promises and proves those promises for every input, every history and every interleaving.

`dafny verify dfyconfig.toml` checks everything.

## What is modelled

**The fact store** (`Bytes`, `Keys`, `Names`, `Facts`, `FactTree`, `Mutation`, `Scanning`,
`History`, `BlobIndex`, `Store`). The search tree is a finite map from 162-byte keys to states, read in
key order. Every fact lives under an entity, an attribute and a value key. `Mutation.Apply` runs
a batch of instructions on the tree and is proved to refine a fold over a plain set of facts;
`Scanning.Scan` chooses an index, builds a byte range and filters it, and is proved to yield each
matching live fact once. Both are stated at the level of key bytes, where no assumption about the
hash is needed. `History` then reads them on fact content, for any finite universe of facts whose
hashed texts do not collide and whose names hold no NUL byte. Blob records share the tree under
another tag. `Store.Answer` puts it together: any history of batches and blob writes, then any scan.

Not every value that can be stored can be read. Decoding a `Record` is not implemented and panics
(rust/dialog-artifacts/src/artifacts/value.rs:245), and a symbol comes back cut at its first NUL.
So "what was written is what is read" holds under a condition, and the condition is exact: a
scan faults if and only if it matches a live fact that cannot be read, a Replace if and only if its
pair holds one, and a batch if and only if one of its instructions does.
`Store.RecordsAreStuck` shows that asserting a record always gets there.

**Delegation chains** (`TimeRanges`, `Delegation`). `Delegation.Prove` is the worklist search,
with soundness, completeness up to the depth limit, and a termination measure that counts the
waiting entries depth by depth. Which proof comes back is specified apart from the search: partial
chains are sequences of positions in the two listings, and `Delegation.Sooner` orders them as a
last-in first-out search meets them. `Delegation.Resolves` says that the first one that cannot be
listed or holds a grant decides, and `Delegation.ResolvesOnce` that this leaves exactly one outcome.

**Planning and evaluating rule bodies** (`Environments`, `Feasibility`, `Planner`, `Query`,
`Meaning`, `Orders`, `Exactness`, `Narrowing`, `Counting`, `Bodies`, `Operands`, `Rules`). The ordering
loop is generic in what a premise is and in its cost estimate. Premises are scans, optional left joins, equalities and
negations of these, evaluated row by row with three-valued bindings (unbound, present, absent).
Each premise gets a relational meaning that does not mention evaluation. Before a body is ordered
it is narrowed: names that some positive slot demands present are inferred, and an optional
lookup of such a name becomes a plain scan. `Narrowing.NarrowingKeepsAnswers` proves that this
changes no answer of any body, and `Bodies.OrdersAgree` that every complete feasible order of the
narrowed form of a posed body yields exactly the rows that the authored premises call for.
`Counting` says how often: a scan yields one row per selected fact, in their order, and a posed body
yields each row once for every way of satisfying its premises, in any order and narrowed or not.

That promise fails for arbitrary bodies, so its condition is made exact. `Orders.WellPosed` is a
syntactic condition on a premise and on the names that may be absent; `Exactness.WellPosedIsExact`
proves that it holds if and only if evaluation agrees with the meaning on every feasible row.
`Narrowing.Posed` asks it of a whole body for the least set of names that an absence can reach, and
`Narrowing.PosedIsExact` proves that nothing weaker will do if every step is to be answered
faithfully; a body outside it may still give one answer in every order. `Bodies.NarrowingSettles`
says how much of it narrowing gives for free. `Bodies.OrderMatters` is a body outside it that narrowing leaves as
it is: an optional lookup, two equalities that carry its absence on, and an untyped equality of the
two copies. Run last, that equality compares two absences and keeps the row; run before the second
copy exists, it may not carry the absence and drops the row. Left joins by an attribute that is not
known have failing rows of their own, `Meaning.OpenClaimPasses` and `Meaning.AbsentAttributePasses`,
and `Meaning.LeftJoinIsJoin` shows that there are no others.

Compiling a rule is meant to ensure that its required operands have values. On the rows that the
premises call for it does (`Rules.HeadsArePresent`); on the rows that evaluation yields it does not:
`Rules.AbsentOperand` and `Rules.UnboundOperand` are accepted rules that lose their operand, on the
order that planning picks. `Operands` therefore computes what the rows of a run may lack, for every
body: the names that may be absent, and the names that the plan counts as bound and a row may not hold.
A name is secured if some premise gives it a value in spite of these gaps. Every run delivers
every secured name (`Operands.SecuredIsDelivered`), and in posed bodies all operands are secured.
Both parts of the analysis are exact step by step, and so is the whole among arguments of this kind
(`Operands.SecuredIsExact`). So an operand that is lost is never secured, but one that
is not secured need not be lost: `Rules.UnsecuredButKept` is a body whose scan keeps an optional lookup
from ever coming back empty.

**Persistence** (`Blocks`, `Persistence`, `Selecting`). A tree version is a value; on disk it is a
set of blocks that link to each other by hash. A schedule gives every storage operation its fate: it
works, is lost, or is reported failed although it took effect; block writes complete in any order.
The results hold for every schedule, and from the schedule alone `Persistence.CommitDecides` says when
a commit is done, rolled back or stranded and what it leaves. The class `Artifacts` records every state its disk goes
through, so what is proved of that history is also proved of what a crash leaves behind.
The code's remark that a revision only references durable blocks is false in one family of runs:
when a flush fails and the rollback fails too, the tree in memory is not on disk, and a later
commit (an empty batch is enough) publishes it. `Persistence.StrandedCommitDangles` is such a run,
`Persistence.SafeExactlyFromDurable` proves that a commit is safe for every batch if and only if the
tree in memory is durable when it starts, `Persistence.SessionsAreSafe` that a run whose commits all
start so never leaves the safe states, and `Persistence.StaysWhole` that after a failed rollback a reset
or a reopening that succeeds is enough. `Selecting` reads a range of such a version block by block while
the store moves on, and `Selecting.Select` connects that read to the scans of the fact store.

**The columnar codec** (`Leb128`, `Codec`). Cells are deduplicated into a data section, a table
of ranges and an index per cell, with lengths in unsigned LEB128 (section 7.6 of the DWARF
Debugging Information Format, version 5). Integers are 64 bits wide on reading. The integer reader
is a crate outside the repository; it is taken to consume the bytes of a number, up to the first one
without the continuation bit or the end, also when they make no number of 64 bits.

**The forked stream** (`ForkStream`). One producer and two consumers as interleaved steps.

### Where code and documentation disagree

- The documentation of `Replace` says the cause is taken from the first prior fact
  (rust/dialog-artifacts/src/artifacts/instruction.rs:17-21); the code keeps the new fact's own
  cause, and keeps the prior fact whole when its value is the same.
- The documentation of entity key bytes says that a URI without a remainder is followed by zeroes
  (rust/dialog-artifacts/src/uri.rs:55-60); at exactly 32 bytes the code writes the hash of the
  empty string.
- The search for delegation chains is documented as breadth-first and as taking subject-specific
  delegations before powerline ones (rust/dialog-capability/src/access.rs:456-460). It runs last-in
  first-out, so among links that are not grants the one listed last is followed first, powerline before
  subject-specific (`Delegation.PowerlineGoesFirst`). Among grants the documented order holds
  (`Delegation.DirectGrant`).
- Matching an attribute prefix on key bytes is documented as exact
  (rust/dialog-artifacts/src/artifacts/match.rs:46-48); a prefix that goes on with NUL bytes after
  the whole name matches too. `Names.AttributePrefixExact` and `Names.EntityPrefixExact` give the
  exact condition.
- Analysis promises that no conclusion variable of an accepted rule can be absent
  (rust/dialog-query/src/rule/analyzer.rs:227-228), and compiling that every one is bound
  (rust/dialog-query/src/rule.rs:120-124). Rows that lack one are yielded and passed on to the caller
  (rust/dialog-query/src/concept/query.rs:82-95), as `Rules.AbsentOperand` and `Rules.UnboundOperand` show.
- `fork_stream` promises a clone of every item; an error of the input is not passed on, and both
  consumers see an ordinary end (`ForkStream.FailureLooksLikeEnd`).

## Model

| member | source | states |
|---|---|---|
| `Keys.FromParts` | rust/dialog-artifacts/src/key/entity.rs:39-119 | a key built part by part carries its index's tag and gives back every part, so no part overwrites another in any of the three layouts |
| `Keys.KeyLayout` | rust/dialog-artifacts/src/key/entity.rs:39-119 | the three keys of a fact byte for byte: tag 0, 1 or 2, then the parts in the order of the index |
| `Keys.PartsDetermineKey` | rust/dialog-artifacts/src/key.rs:291-311 | rebuilding a key with a known value type from its own parts gives the same key, so a fact has one key per index |
| `Keys.PartwiseBound` | rust/dialog-artifacts/src/tree.rs:350-379 | bounds on each part are lexicographic bounds on the key, in all three part orders |
| `Keys.RangeKeepsTag` | rust/dialog-artifacts/src/tree.rs:350-379 | a range whose ends share a tag never strays into another index |
| `Names.KeyBytes` | rust/dialog-artifacts/src/uri.rs:61-80 | the buffer filled in place: the first 32 bytes of the URI raw, then the hash of what follows, from exactly 32 bytes on; zeroes after a shorter one |
| `Names.EntityBytesInjective` | rust/dialog-artifacts/src/uri.rs:61-80 | URIs without NULs have equal key bytes only if they are equal, the 32-byte boundary included, given that the hash tells their tails apart |
| `Names.AttributeBytesInjective` | rust/dialog-artifacts/src/artifacts/attribute.rs:33-56 | attribute names without NULs have equal key bytes only if they are equal |
| `Names.FillPrefixSegment` | rust/dialog-artifacts/src/tree.rs:82-88 | the segment filled in place is the capped prefix followed by the fill byte |
| `Names.PrefixSegmentBrackets` | rust/dialog-artifacts/src/tree.rs:76-88 | the low and high segments bracket exactly the segments that share the comparable part of the prefix |
| `Names.EntityPrefixInside` | rust/dialog-artifacts/src/tree.rs:98-122 | every URI with a prefix passes the key check and lies between the prefix's bounds |
| `Names.EntityPrefixExact` | rust/dialog-artifacts/src/artifacts/match.rs:58-106 | the key check plus the re-check on the stored URI accept exactly the URIs with the prefix and those that the prefix continues with nothing but NULs |
| `Names.AttributePrefixExact` | rust/dialog-artifacts/src/artifacts/match.rs:46-56 | the key check accepts exactly the names with the prefix and those that the prefix continues with nothing but NULs |
| `Facts.MatchesIsSelects` | rust/dialog-artifacts/src/artifacts/match.rs:17-108 | for texts without NULs and without colliding hashes, matching by key bytes is matching by content, for every mix of exact fields and prefixes |
| `Facts.NulPrefixMatchesByKeyOnly` | rust/dialog-artifacts/src/artifacts/match.rs:46-56 | a prefix that continues a name with a NUL matches it by key and not by name |
| `Facts.SturdyValues` | rust/dialog-artifacts/src/artifacts/value.rs:197-257 | every value but a record and a symbol with a NUL in its name reads back as itself |
| `Facts.Unreadable` | rust/dialog-artifacts/src/artifacts/value.rs:197-257 | a symbol can be read back exactly when a slash stands before its first NUL; of the other values only a record cannot |
| `Facts.SymbolsAreCut` | rust/dialog-artifacts/src/artifacts/value.rs:246-257 | a symbol whose name goes on behind a NUL reads back as the name before it, another value |
| `FactTree.UnknownIsBytes` | rust/dialog-artifacts/src/artifacts/value.rs:904-924 | a data type that is not known is taken for raw bytes, in a key as in a stored value |
| `FactTree.PutFact` | rust/dialog-artifacts/src/tree.rs:210-226 | writing a fact under its three keys keeps the three indexes in agreement, adds exactly that fact and touches nothing outside them |
| `FactTree.HideFact` | rust/dialog-artifacts/src/tree.rs:301-316 | writing the removed state under the three keys hides exactly that fact and keeps the indexes in agreement |
| `FactTree.DropFact` | rust/dialog-artifacts/src/tree.rs:266-280 | deleting the three keys derived from one entry removes exactly that fact and keeps the indexes in agreement |
| `Mutation.PairRange` | rust/dialog-artifacts/src/tree.rs:240-251 | the range read for one entity and attribute holds exactly the keys of that pair |
| `Mutation.Collect` | rust/dialog-artifacts/src/tree.rs:253-263 | fails exactly when some live entry cannot be read, a record for one; otherwise the keys set aside are exactly the live entries with another value, each once, and the flag tells whether the value is there |
| `Mutation.FindPriors` | rust/dialog-artifacts/src/tree.rs:237-264 | over the whole tree: fails exactly when the pair holds a live value that cannot be read; otherwise finds exactly the pair's facts with another value, and whether the wanted one is live |
| `Mutation.Delete` | rust/dialog-artifacts/src/tree.rs:266-280 | one fact is gone from all three indexes and no other fact changes |
| `Mutation.DeleteAll` | rust/dialog-artifacts/src/tree.rs:266-280 | exactly the superseded facts are gone, the indexes agree after each |
| `Mutation.SupersedingClearsPair` | rust/dialog-artifacts/src/tree.rs:253-284 | once what reads differently is superseded, all that can be left of the pair reads as the wanted value, and something is left exactly when the flag was set |
| `Mutation.ReplaceLeavesOne` | rust/dialog-artifacts/src/tree.rs:227-300 | after Replace the pair holds the replaced-in value and nothing else if and only if no other stored value of the pair reads back as it (only a symbol with a NUL can); other pairs are untouched |
| `Mutation.CutSymbolStays` | rust/dialog-artifacts/src/tree.rs:253-284 | a history that fails the condition: a symbol that goes on behind a NUL is asserted and then replaced by the name before it; nothing fails, the first symbol stays and the replaced-in value is not there |
| `Mutation.ApplyReplace` | rust/dialog-artifacts/src/tree.rs:227-300 | fails, changing nothing, exactly when the pair holds a live value that cannot be read; otherwise the live facts of the tree are those of the plain Replace step, the pair is left with exactly the replaced-in value under the condition above, other pairs are untouched and the indexes agree |
| `Mutation.ApplyOne` | rust/dialog-artifacts/src/tree.rs:208-318 | each instruction fails exactly when its plain step does; otherwise it has the effect of that step and keeps the three entries of every fact in one state |
| `Mutation.Apply` | rust/dialog-artifacts/src/tree.rs:205-323 | a batch fails exactly when some instruction fails on the facts that those before it leave, and then the tree is as it was; otherwise the batch refines the fold of plain steps, the indexes agree and entries of other tags are untouched |
| `Scanning.RangeContainsMatches` | rust/dialog-artifacts/src/tree.rs:98-122 | in every index the range built from a selector contains the key of every matching fact |
| `Scanning.RangeIsTight` | rust/dialog-artifacts/src/tree.rs:350-379 | where the selector names the part that the chosen index leads with, the range holds only keys with that part |
| `Scanning.EntryShowsFact` | rust/dialog-artifacts/src/tree.rs:381-394 | an added entry of any index holds a fact that the entity index holds as live, whether or not its value can be read back |
| `Scanning.HitIsMatch` | rust/dialog-artifacts/src/artifacts/match.rs:82-108 | an entry passes the filter exactly when its fact matches the selector, whichever index it comes from |
| `Scanning.ChosenOrder` | rust/dialog-artifacts/src/tree.rs:340-379 | the order of the chosen index is, in terms of the selector: entity first if it names one or bounds nothing else, else value first if it names one, else attribute first |
| `Scanning.MatchingIsPicked` | rust/dialog-artifacts/src/tree.rs:326-395 | the stored facts behind the entries that the chosen index, range and filter leave are exactly the matching live facts, strictly ascending by the part that the selector names first |
| `Scanning.Filter` | rust/dialog-artifacts/src/tree.rs:381-394 | over any run of keys: the facts of the entries that pass, as they read back, up to the first that cannot be read |
| `Scanning.Scan` | rust/dialog-artifacts/src/tree.rs:326-395 | the dispatch always finds an index; the scan faults if and only if some matching live fact cannot be read, having yielded the facts before it; where every matching value reads back as itself it yields exactly the matching live facts, each once, ascending by the part that the selector names first |
| `History.SingleValued` | rust/dialog-artifacts/src/tree.rs:208-318 | over every history, a pair that is only replaced or retracted has at most one live value |
| `History.IdIsContent` | rust/dialog-artifacts/src/key/entity.rs:148-156 | facts that the hash tells apart have one identity, or one pair, exactly when their content says so |
| `History.LiveIsLastWritten` | rust/dialog-artifacts/src/tree.rs:205-323 | after every history, said without a fold: a triple is live exactly when some Assert or Replace of it is followed neither by its Retract nor by a Replace of its subject with another value; its cause is that of the last such Assert, or of the Replace that brought it back |
| `History.FailsIsMeeting` | rust/dialog-artifacts/src/tree.rs:253-263 | a history fails exactly when some Replace comes while a write of its subject whose value cannot be read still lasts |
| `History.FoldRepresents` | rust/dialog-artifacts/src/tree.rs:205-323 | over every history within a universe free of collisions, the store fails exactly when the plain reading of the history does, and otherwise the identified facts are exactly its triples, with their causes |
| `History.ScanIsFilter` | rust/dialog-artifacts/src/tree.rs:326-395 | what a scan picks after any history that did not fail is exactly what filtering the plain facts by the selector picks |
| `History.MatchIsFilter` | rust/dialog-artifacts/src/artifacts/match.rs:17-108 | what a selector matches by key among the facts any history leaves is exactly what filtering the plain facts picks |
| `BlobIndex.BigEndianRoundTrip` | rust/dialog-artifacts/src/blob_index.rs:56-70 | reading back the big-endian bytes of any number that fits gives the number |
| `BlobIndex.BigEndianOrder` | rust/dialog-artifacts/src/blob_index.rs:56-70 | the bytes of numbers sort as the numbers do |
| `BlobIndex.RecordRoundTrip` | rust/dialog-artifacts/src/blob_index.rs:56-100 | a stored record is its version and eight bytes of size; it reads back if and only if it has version 1, and is malformed otherwise |
| `BlobIndex.BlobKeyOrder` | rust/dialog-artifacts/src/blob_index.rs:269-295 | blob keys sort as their hashes do |
| `BlobIndex.BlobRange` | rust/dialog-artifacts/src/blob_index.rs:269-295 | the listing range holds exactly the keys with the blob tag |
| `BlobIndex.PutBlobKeepsFacts` | rust/dialog-artifacts/src/blob_index.rs:229-249 | a blob write changes no fact and keeps the three indexes in agreement |
| `BlobIndex.FactsKeepBlobs` | rust/dialog-artifacts/src/tree.rs:205-323 | a batch of instructions changes no blob record |
| `BlobIndex.GetBlobFinds` | rust/dialog-artifacts/src/blob_index.rs:251-267 | a lookup returns the record last held for the hash, nothing if there is none, an error if its version is unknown |
| `BlobIndex.DecodeAll` | rust/dialog-artifacts/src/blob_index.rs:281-295 | entries are decoded in turn up to the first that cannot be read |
| `BlobIndex.ListBlobs` | rust/dialog-artifacts/src/blob_index.rs:269-295 | the records strictly ascending by hash, all of them unless some record has an unknown version |
| `BlobIndex.RunAll` | rust/dialog-artifacts/src/blob_index.rs:229-295 | an interleaving of batches and blob writes fails exactly when its instructions do; otherwise the facts are those of the batches alone and the records those last put |
| `Store.Answer` | rust/dialog-artifacts/src/tree.rs:187-397 | after every history of batches and blob writes, for every selector: not applied exactly when some Replace met a value at its subject that cannot be read, not read exactly when some answer cannot be, and otherwise exactly the facts that filtering the plain reading of the history gives, each once, ascending by the part that the selector names first |
| `Store.Respond` | rust/dialog-artifacts/src/tree.rs:187-397 | for every history and every selector, with any texts and any hash: not applied exactly when some Replace met a value that cannot be read; otherwise the matching facts are exactly those the fold of plain steps leaves, listed once in index order, and the response shows them as they read back, up to the first that cannot be read |
| `Store.RecordsAreStuck` | rust/dialog-artifacts/src/artifacts/value.rs:245 | a record can always be asserted; after that every selector that matches it picks a fact that cannot be read, and every Replace at its entity and attribute fails |
| `TimeRanges.MeetContains` | rust/dialog-capability/src/access.rs:129-144 | an intersection of ranges contains an instant exactly when each of them does |
| `TimeRanges.MeetCovers` | rust/dialog-capability/src/access.rs:112-144 | ranges that each cover a requirement still cover it together |
| `TimeRanges.FoldIsMeet` | rust/dialog-capability/src/access.rs:504-506 | folding ranges into an accumulator is intersecting with all of them |
| `TimeRanges.CoversIsInclusion` | rust/dialog-capability/src/access.rs:112-127 | a range includes every instant of a non-empty requirement if and only if it covers it and sets no bound that the requirement leaves open, a start at zero aside |
| `TimeRanges.OverlapIsSharedInstant` | rust/dialog-capability/src/access.rs:85-97 | two ranges that are not empty overlap exactly when they share an instant |
| `Delegation.CandidatesAre` | rust/dialog-capability/src/access.rs:483-495 | the candidates of an audience are exactly the listed certificates that verify and cover the duration, direct grants or not |
| `Delegation.CandidatesAt` | rust/dialog-capability/src/access.rs:483-495 | read as positions in the two listings: grants by the subject first, then the other links, each kind with subject-specific before powerline and in listing order |
| `Delegation.ExtendRange` | rust/dialog-capability/src/access.rs:498-518 | folding ranges that are accumulated already gives the intersection of the certificates' own ranges |
| `Delegation.ChildrenCover` | rust/dialog-capability/src/access.rs:497-519 | trading an entry for its continuations loses no chain within the limit |
| `Delegation.RoundAdvances` | rust/dialog-capability/src/access.rs:478-520 | every round keeps all chains within the limit reachable and trades one entry for entries one deeper, which is why the search ends on cycles too |
| `Delegation.LastIsForemost` | rust/dialog-capability/src/access.rs:478-520 | what is taken from the end of the worklist is, of all partial chains not yet found barren, the first in search order |
| `Delegation.Follow` | rust/dialog-capability/src/access.rs:497-519 | stops exactly when some candidate was issued by the subject, at the first such one, with a full proof; otherwise exactly the continuations by all candidates, each sound, are queued in their order |
| `Delegation.Round` | rust/dialog-capability/src/access.rs:478-520 | a round keeps every chain within the limit reachable and the worklist in search order, and either trades one entry for deeper ones or ends with the outcome that the order calls for |
| `Delegation.Prove` | rust/dialog-capability/src/access.rs:461-526 | terminates on every store; the outcome is the one that the search order calls for; a non-empty proof is a linked, verified chain from subject to principal of at most ten certificates that covers the duration; denial means there is no such chain; an error means a listing failed; a direct grant is found as a chain of one |
| `Delegation.ResolvesOnce` | rust/dialog-capability/src/access.rs:461-526 | the order leaves no choice: partial chains ordered on positions in the two listings, a chain before its continuations and later listed continuations before earlier ones, the first that fails to be listed or holds a grant decides, and of its grants the first listed; so a claim has exactly one outcome |
| `Delegation.DirectGrant` | rust/dialog-capability/src/access.rs:483-512 | with a grant to the principal itself the proof is that one certificate: the first usable one by the subject among the subject-specific, else among the powerline ones |
| `Delegation.PowerlineGoesFirst` | rust/dialog-capability/src/access.rs:456-460 | two chains of equal length, one by a subject-specific and one by a powerline certificate: the powerline one is returned |
| `Delegation.ProofValidity` | rust/dialog-capability/src/access.rs:504-512 | the duration of a proof contains an instant exactly when every certificate's range does |
| `Leb128.ReadsBack` | rust/dialog-encoding/src/buffer.rs:204-219 | a 64-bit number written anywhere in a buffer reads back from there, with the cursor left behind it |
| `Leb128.ReadSkips` | rust/dialog-encoding/src/buffer.rs:269-270 | a successful read leaves the cursor where skipping the bytes of one number does |
| `Leb128.ReadIsNumber` | rust/dialog-encoding/src/buffer.rs:204-219 | a read gives a value and an end exactly when the bytes in between are that number in LEB128, at most ten of them and within 64 bits, minimal or not |
| `Codec.Distinct` | rust/dialog-encoding/src/buffer.rs:110-129 | the dictionary order lists every cell that occurs, once |
| `Codec.DistinctInOrder` | rust/dialog-encoding/src/buffer.rs:114-129 | the distinct cells stand in the order of their first occurrence |
| `Codec.Encode` | rust/dialog-encoding/src/buffer.rs:107-146 | one pass with a growing dictionary produces the concatenation of the distinct cells in order of first occurrence, their ranges, and an index per cell |
| `Codec.CellDecoder.Advance` | rust/dialog-encoding/src/buffer.rs:269-274 | a step yields the cell the index names, ends where no index can be read, and faults on one out of range; in every case the cursor is left behind the bytes of the number, also when they did not make a number |
| `Codec.DecodeRanges` | rust/dialog-encoding/src/buffer.rs:212-220 | the loop reads exactly the pairs of the section, or reports a truncated number |
| `Codec.Drain` | rust/dialog-encoding/src/buffer.rs:224-274 | running the iterator to its end yields exactly the cells of the index section, or the first fault |
| `Codec.Decode` | rust/dialog-encoding/src/buffer.rs:197-229 | for every buffer: the cells, the integer error, or the panic that its sections call for |
| `Codec.DecodeIsParse` | rust/dialog-encoding/src/buffer.rs:197-229 | for every buffer, said on where its sections lie: it decodes to cells exactly when it parses as them, fails with an integer error exactly when a number is missing where a section needs one, and panics exactly when a section or a cell reaches out of bounds |
| `Codec.TableSlices` | rust/dialog-encoding/src/buffer.rs:118-122 | each range entry slices its cell back out of the data section |
| `Codec.RangesReadBack` | rust/dialog-encoding/src/buffer.rs:212-220 | from the end of any entry on, the range section parses as the rest of the table |
| `Codec.CellsReadBack` | rust/dialog-encoding/src/buffer.rs:269-274 | from any cell on, the index section yields the rest of the cells |
| `Codec.RoundTrip` | rust/dialog-encoding/src/buffer.rs:99-229 | decoding an encoding yields the same cells, empty and repeated ones included |
| `Codec.EncodingInjective` | rust/dialog-encoding/src/buffer.rs:99-147 | equal encodings come from equal cells |
| `Environments.Environment.Extend` | rust/dialog-query/src/environment.rs:60-69 | all names of the other set are bound, and exactly the new ones are reported |
| `Feasibility.Categorize` | rust/dialog-query/src/planner/feasibility.rs:17-69 | the loops compute which open names wait under the choice-group rule and which will be bound |
| `Feasibility.NeedsAre` | rust/dialog-query/src/planner/feasibility.rs:17-69 | a name is needed exactly when it is unbound and stands in a slot that is required outright or through a group none of whose slots is bound or constant |
| `Feasibility.BindsAre` | rust/dialog-query/src/planner/feasibility.rs:17-69 | a name is about to be bound exactly when the premise is positive and the name is unbound and stands in a slot that does not need it |
| `Feasibility.OpenIsNeededOrBound` | rust/dialog-query/src/planner/feasibility.rs:17-69 | every open name is needed or about to be bound, and nothing else is |
| `Feasibility.FeasibleBindsVars` | rust/dialog-query/src/planner/feasibility.rs:81-92 | after a feasible premise exactly the bound names and the names it mentions are bound; a negation binds none |
| `Feasibility.NeedsShrink` | rust/dialog-query/src/schema.rs:226-241 | binding more names never makes a premise need more, choice groups included |
| `Planner.Best` | rust/dialog-query/src/planner.rs:67-80 | the earliest of the cheapest feasible premises, and none exactly when none is feasible |
| `Planner.Select` | rust/dialog-query/src/planner.rs:66-80 | the scan over the remaining premises finds that one |
| `Planner.Fail` | rust/dialog-query/src/planner.rs:147-161 | when no premise is feasible some premise reports a non-empty set of names, so the unreachable case is unreachable |
| `Planner.Plan` | rust/dialog-query/src/planner.rs:56-114 | succeeds exactly when some complete feasible order exists, with the order in which every step is the cheapest feasible one left, the earliest on a tie; each step records its own estimate, the names bound before it and the names it adds; a failure names a non-empty set of names that no feasible run can bind |
| `Planner.DoneIsOrdering` | rust/dialog-query/src/planner.rs:62-99 | a greedy order that ends is a permutation of the premises, each feasible under the scope and the earlier binds |
| `Planner.GreedyIsComplete` | rust/dialog-query/src/planner.rs:62-99 | the greedy choice, whatever the estimates, finds an order whenever there is one |
| `Planner.GreedyKeepsTurns` | rust/dialog-query/src/planner.rs:66-99 | premises that are each feasible in their turn, none of the later feasible ones being cheaper, are planned in the order they stand in |
| `Planner.TurnsAreUnique` | rust/dialog-query/src/planner.rs:66-99 | there is only one order in which every step is the cheapest feasible one left, the earliest on a tie |
| `Planner.RequiredIsUnreachable` | rust/dialog-query/src/planner.rs:147-161 | the names reported missing are ones no feasible run of the premises, complete or not, can ever bind |
| `Planner.BindsAnyOrder` | rust/dialog-query/src/planner.rs:101-113 | the names bound at the end are the same for every order |
| `Planner.PlannableGrows` | rust/dialog-query/src/planner.rs:56-114 | premises that can be ordered in one scope can be ordered in every larger one |
| `Query.CostShrinks` | rust/dialog-query/src/schema.rs:135-168 | for attributes with one value and with many: an estimate is missing exactly when no term is known, and knowing more never raises it |
| `Query.CostRanks` | rust/dialog-query/src/schema.rs:135-168 | estimates of any two premises compare as their places in one ranking, by which of attribute, entity and value are determined, for both cardinalities, equalities and negations included |
| `Query.PlannedCost` | rust/dialog-query/src/attribute/query/all.rs:256-263 | scans and lookups are planned at the amount of their place for attributes of many values |
| `Query.EvaluateLeftJoin` | rust/dialog-query/src/optional.rs:129-211 | the loop over rows, with its probe and its fallback, produces the stream of the row-by-row definition, rows before an error included |
| `Meaning.ScanIsJoin` | rust/dialog-query/src/attribute/query/all.rs:282-317 | a scan yields exactly the extensions of the row that some fact fits; an absent binding fits none; how often is the matter of the rows on counting |
| `Meaning.EmptyScanIsAbsence` | rust/dialog-query/src/optional.rs:187-197 | before the value is bound, a scan at a known entity, by any attribute that is blank, constant or bound, comes back empty exactly when no fact matches |
| `Meaning.LeftJoinIsRelated` | rust/dialog-query/src/optional.rs:199-208 | where attribute and entity have values, the meaning of a left join is membership in the attribute's facts widened by absence where it has none |
| `Meaning.LeftJoinIsJoin` | rust/dialog-query/src/optional.rs:138-210 | on every row with a known entity that planning lets through, whatever the attribute term and whether the value arrives unbound, present or absent, the left join is the join with the widened relation if and only if the row does not claim an absent value while leaving the attribute open, and does not hold an absent attribute with nothing pinning the value |
| `Meaning.OpenClaimPasses` | rust/dialog-query/src/optional.rs:162-185 | the failing rows: with the attribute unbound and the value claimed absent, the row passes exactly when the entity has no fact at all, and the attribute name stays unbound although the plan records it as bound |
| `Meaning.AbsentAttributePasses` | rust/dialog-query/src/optional.rs:199-208 | the other failing rows: with an absent attribute and nothing pinning the value, a row is yielded without error that no fact and no absence accounts for |
| `Meaning.UnpinnedRowSurvives` | rust/dialog-query/src/optional.rs:199-208 | a row whose value is not pinned is never dropped, whether the attribute is blank, constant or bound |
| `Meaning.EqualIsJoin` | rust/dialog-query/src/constraint/equality.rs:111-173 | equality is the join with its relation on exactly the rows where it lets no absence through that both terms do not admit |
| `Orders.ReadyUnless` | rust/dialog-query/src/negation.rs:49-68 | a negation is feasible only once all its names are bound |
| `Orders.PremiseIsJoin` | rust/dialog-query/src/planner/plan.rs:165-217 | evaluating a feasible well-posed premise, negated or not, left joins by any attribute included, yields exactly the joined rows and no error |
| `Orders.RunMeans` | rust/dialog-query/src/planner/conjunction.rs:43-56 | running a feasible order of well-posed premises yields, without error, exactly the rows that bind the scope's and the premises' names, extend an input row and satisfy every premise |
| `Orders.OrderIrrelevant` | rust/dialog-query/src/planner.rs:56-99 | all complete feasible orders of premises that are well posed for one set of names give the same rows |
| `Exactness.FeasibleFails` | rust/dialog-query/src/attribute/query/all.rs:282-317 | a feasible premise fails on a row exactly when nothing in it is named or constant, when two parts of a selected fact go to one unbound name, or when the entity of a left join is blank or absent |
| `Exactness.NegationFails` | rust/dialog-query/src/planner/plan.rs:184-217 | a feasible negation fails exactly where what it negates does |
| `Exactness.NegationDecides` | rust/dialog-query/src/planner/plan.rs:184-217 | on any row a negation decides on the first thing its inner evaluation comes to: a match drops the row even if a failure would follow, a failure that comes first is passed on, and otherwise the row passes |
| `Exactness.WellPosedIsExact` | rust/dialog-query/src/constraint/equality.rs:111-173 | every premise, with any terms, is answered faithfully on every feasible row if and only if it is well posed |
| `Narrowing.Infer` | rust/dialog-query/src/rule/types.rs:105-174 | the loop over premises and slots finds exactly the names that stand, in some positive premise, for an attribute or an entity, or as the value of a scan or a side of an equality whose term does not admit absence |
| `Narrowing.DemandedIsStanding` | rust/dialog-query/src/rule/types.rs:134-166 | a premise demands a name exactly when the name stands in such a place |
| `Narrowing.NarrowedKinds` | rust/dialog-query/src/planner/plan.rs:244-313 | in the narrowed body a scanned value admits absence exactly when its name is inferred optional, a scan's attribute and entity never do, and optional lookups are left exactly where the value may be absent |
| `Narrowing.DemandedIsPresent` | rust/dialog-query/src/planner/plan.rs:219-231 | where a premise holds, as authored or narrowed, every name it demands has a value |
| `Narrowing.NarrowedHolds` | rust/dialog-query/src/planner/plan.rs:232-313 | a row satisfies all narrowed premises if and only if it satisfies all authored ones |
| `Narrowing.NarrowingKeepsAnswers` | rust/dialog-query/src/planner.rs:128-143 | stamping kinds and demoting optional lookups changes no answer of any body, in any scope, on any input rows |
| `Narrowing.ReachIsLeast` | rust/dialog-query/src/constraint/equality.rs:144-163 | the names an absence can reach through equalities that carry it are the least closed set |
| `Narrowing.PosedIsWeakest` | rust/dialog-query/src/planner.rs:56-99 | the condition on a body is the weakest of its kind: it holds as soon as its premises are well posed for any set of names that covers the arriving absences |
| `Narrowing.PosedIsExact` | rust/dialog-query/src/constraint/equality.rs:111-173 | a body meets the condition if and only if some set of possibly absent names exists on which every step is answered faithfully and which no step leaves; exact for faithful steps, not for order independence |
| `Counting.ScanYieldsEach` | rust/dialog-query/src/attribute/query/all.rs:282-317 | a scan that knows something and is not blocked yields exactly one row for each fact that its terms select, in the order of the facts, each fitting its fact |
| `Counting.PremiseCounts` | rust/dialog-query/src/planner/plan.rs:165-217 | a feasible well-posed premise yields each row once for every way in which it holds there: once per fact that satisfies it, and once where it holds without one |
| `Counting.RunCounts` | rust/dialog-query/src/planner/conjunction.rs:43-56 | running a feasible order of well-posed premises yields each row once for every input row it extends and every way of satisfying all premises, and no other |
| `Counting.TimesIsAnswers` | rust/dialog-query/src/planner/conjunction.rs:43-56 | a row is called for exactly when it is called for at least once |
| `Counting.NarrowingKeepsTimes` | rust/dialog-query/src/planner.rs:128-143 | narrowing changes no count |
| `Counting.OrdersCount` | rust/dialog-query/src/planner.rs:50-114 | any two complete feasible orders of the narrowed form of a posed body yield the same rows equally often, as often as the authored body calls for them |
| `Counting.ScansCountTuples` | rust/dialog-query/src/attribute/query/all.rs:282-317 | a body of scans calls for a row once per choice of one fact for each premise that produces it, for each input row it extends |
| `Bodies.OrdersAgree` | rust/dialog-query/src/planner.rs:50-114 | every complete feasible order of the narrowed form of a posed body runs without error and yields the same rows equally often, namely those that the premises as authored call for, as often as they do |
| `Bodies.PlanAndEvaluate` | rust/dialog-query/src/planner.rs:50-143 | for every body: inferring, narrowing, planning and evaluating gives a result exactly when the narrowed body can be ordered, namely the run of its greedy order; on a posed body that is without error exactly the answers of the authored body, each as often as the body calls for it |
| `Bodies.DemotionKeepsRows` | rust/dialog-query/src/planner/plan.rs:250-264 | where the authored body is posed too, every order of it gives the rows of every order of its narrowed form |
| `Bodies.NarrowingSettles` | rust/dialog-query/src/planner/plan.rs:219-264 | narrowing alone decides what may be absent: a body is posed if no equality can carry an absence into a name inferred present and its premises have an answerable shape |
| `Bodies.UntypedEqualityDemotes` | rust/dialog-query/src/rule/types.rs:146-157 | two optional lookups and an untyped equality of their values become two scans and the equality, a posed body |
| `Bodies.NarrowingUnblocks` | rust/dialog-query/src/planner/plan.rs:250-264 | an optional lookup of an unbound entity whose value an equality fixes cannot be ordered as authored and can be once narrowed |
| `Bodies.OrderMatters` | rust/dialog-query/src/constraint/equality.rs:126-162 | a body that narrowing leaves as it is, with two complete feasible orders of which one yields a row and the other none |
| `Bodies.OrderMattersOutside` | rust/dialog-query/src/constraint/equality.rs:126-162 | that body does not meet the condition |
| `Operands.ClosedIsExact` | rust/dialog-query/src/constraint/equality.rs:111-173 | a step never yields a row with another absent name, or another name that the plan counts as bound and the row lacks, if and only if a condition on its terms holds |
| `Operands.FixesIsExact` | rust/dialog-query/src/optional.rs:138-210 | a premise gives a name of its own a value in every row it yields, on every row that may arrive, if and only if a condition on its terms holds |
| `Operands.SettleIsLeast` | rust/dialog-query/src/planner/conjunction.rs:43-56 | the gaps computed for a body are the least that all its steps keep |
| `Operands.SecuredIsExact` | rust/dialog-query/src/planner/conjunction.rs:43-56 | a name is secured if and only if some gaps are kept by every step and some premise delivers the name on every row with such gaps |
| `Operands.SecuredIsDelivered` | rust/dialog-query/src/planner/conjunction.rs:43-56 | for every body, posed or not, every scope, input and feasible order: every row yielded gives every secured name a value, and lacks only what the computed gaps allow |
| `Operands.RunPasses` | rust/dialog-query/src/planner/conjunction.rs:43-56 | every row a run yields has passed every premise and extends what that premise yielded |
| `Rules.Compile` | rust/dialog-query/src/rule.rs:125-184 | a rule is accepted exactly when no required operand is inferred optional, no optional lookup is negated, its narrowed premises can be ordered from nothing and they bind every required operand; each verdict is given exactly when its check is the first to fail, with the first operand that fails it or with names that no feasible run can bind; an operand that stands where only a value will do is never rejected as optional |
| `Rules.InferredIsStanding` | rust/dialog-query/src/rule/analyzer.rs:245-253 | a name is inferred optional exactly when positive premises mention it and it stands nowhere where only a value will do |
| `Rules.AcceptedEverywhere` | rust/dialog-query/src/rule.rs:162-183 | an accepted rule can be planned in every scope, and every order there counts its operands among the names it binds; whether a yielded row holds them is the next rows' matter |
| `Rules.HeadsArePresent` | rust/dialog-query/src/rule/analyzer.rs:245-253 | in every row that the premises of an accepted rule call for, in any scope, each required operand has a value |
| `Rules.PosedSecures` | rust/dialog-query/src/rule/analyzer.rs:245-253 | in a body whose narrowed form is posed every demanded name is secured |
| `Rules.OperandsDelivered` | rust/dialog-query/src/rule/analyzer.rs:223-253 | every row that any order of an accepted rule yields, in any scope, gives each secured operand a value; if the narrowed body is posed that is all of them |
| `Rules.AbsentOperand` | rust/dialog-query/src/concept/query.rs:82-95 | an accepted rule, planned in the order it is written in, whose run yields a row with its required operand absent; the operand is not secured |
| `Rules.UnboundOperand` | rust/dialog-query/src/optional.rs:162-185 | an accepted rule, planned in the order it is written in, whose run yields a row that does not bind its required operand at all; the operand is not secured |
| `Rules.UnsecuredButKept` | rust/dialog-query/src/optional.rs:138-210 | a body with a name that is not secured and that it loses on no store, in no order and on no input |
| `Blocks.FlushMakesDurable` | rust/dialog-artifacts/src/artifacts.rs:405-417 | writing a batch's new nodes makes the next version whole if the one it started from was |
| `Persistence.Artifacts.Open` | rust/dialog-artifacts/src/artifacts.rs:130-172 | the tree of the pointed-to revision exactly if its record is there, else the empty one; on a safe disk it is the pointed-to one and whole |
| `Persistence.Artifacts.WriteBlock` | rust/dialog-artifacts/src/artifacts.rs:408-414 | a block write does to the disk what its scheduled fate says, and is reported as that fate says |
| `Persistence.Artifacts.Flush` | rust/dialog-artifacts/src/artifacts.rs:405-417 | block writes in any order, stragglers after a failure included, take the disk through exactly the scheduled states; success means that every write worked |
| `Persistence.Artifacts.Reset` | rust/dialog-artifacts/src/artifacts.rs:263-341 | takes the disk and the tree in memory through exactly the run that the schedule gives; succeeds exactly when the revision is found and recorded and, where one was asked for, the pointer write works |
| `Persistence.Artifacts.Transact` | rust/dialog-artifacts/src/artifacts.rs:391-443 | batch, blocks, record and pointer, each stopping the rest when it fails, are exactly the run that the schedule gives; succeeds exactly when all of them work |
| `Persistence.Artifacts.Commit` | rust/dialog-artifacts/src/artifacts.rs:382-452 | a commit is exactly its scheduled run; it is done exactly when every operation of its transaction works, and otherwise rolled back exactly when the base revision is found and recorded and the rollback's write works; from a durable tree every state it adds is safe and nothing stored is lost; success leaves exactly the new blocks, the record and the pointer; a rollback that succeeds leaves tree and pointer at the base revision |
| `Persistence.FlushKeeps` | rust/dialog-artifacts/src/artifacts.rs:405-417 | whatever fails and in whatever order, no state of a flush loses anything or is unsafe, there is one state per write, and exactly the nodes whose write took effect were added: all of them if all writes work |
| `Persistence.TransactKeeps` | rust/dialog-artifacts/src/artifacts.rs:391-443 | for every schedule of failures, from a durable tree every state of a transaction is safe; success leaves exactly the new blocks, the record and the pointer |
| `Persistence.ResetKeeps` | rust/dialog-artifacts/src/artifacts.rs:263-341 | for every schedule, a reset moves to a recorded revision and, if one was asked for, points at it; on failure the tree in memory stays; no block or record changes and every state stays safe |
| `Persistence.CommitKeeps` | rust/dialog-artifacts/src/artifacts.rs:382-452 | the same for whole commits, rollbacks included |
| `Persistence.TransactDecides` | rust/dialog-artifacts/src/artifacts.rs:391-443 | from the schedule alone: a transaction succeeds exactly when the batch applies, all block writes work, the record write works where there is a tree, and the pointer write works; in every case blocks, records and pointer are left exactly as far as its writes took effect |
| `Persistence.ResetDecides` | rust/dialog-artifacts/src/artifacts.rs:263-341 | from the schedule alone: a reset succeeds exactly when the target is found and recorded and, where one was asked for, the pointer write works; what it leaves in either case |
| `Persistence.CommitDecides` | rust/dialog-artifacts/src/artifacts.rs:382-452 | from the schedule alone: when a commit is done, rolled back or stranded, and what each leaves in memory and on disk |
| `Persistence.OpenRecovers` | rust/dialog-artifacts/src/artifacts.rs:130-172 | opening any safe disk, so any state a crash may leave, finds the pointed-to revision whole |
| `Persistence.OperateReaches` | rust/dialog-artifacts/src/artifacts.rs:130-452 | an operation that meets no failure leaves in memory the batch's tree, the revision asked for or else the pointed-to one, or what reopening finds, and on disk exactly what it is for |
| `Persistence.StaysWhole` | rust/dialog-artifacts/src/artifacts.rs:263-452 | a tree in memory that is on disk stays so through every operation that is not a commit with a failed rollback, and a reopening or a reset that succeeds brings back one that is |
| `Persistence.SessionsAreSafe` | rust/dialog-artifacts/src/artifacts.rs:263-452 | over every run of commits, resets and reopenings, under every schedule of failures, nothing stored is ever lost; if every commit of the run starts from a tree that is on disk, then in every state the pointer is unset, null or names a recorded and whole revision |
| `Persistence.Perform` | rust/dialog-artifacts/src/artifacts.rs:263-452 | each operation, commits after a failed rollback included, takes the store and its disk through exactly the states that the specification of the writer lists |
| `Persistence.Session` | rust/dialog-artifacts/src/artifacts.rs:263-452 | the stores of every such run take the disk through exactly the states listed for it, none of which loses anything; all of them are safe under the condition above |
| `Persistence.SafeExactlyFromDurable` | rust/dialog-artifacts/src/artifacts.rs:405-439 | whatever the batch, a commit that succeeds keeps the disk safe if and only if the tree in memory was durable |
| `Persistence.StrandedCommitDangles` | rust/dialog-artifacts/src/artifacts.rs:445-452 | a run: a commit on the empty disk loses its block write and then its rollback's write, and is left with a tree in memory that is not stored; a second, empty commit then meets no failure, succeeds and points at that missing tree |
| `Selecting.TakeIs` | rust/dialog-search-tree/src/walker.rs:126-137 | stopping at the first entry past the range, once it has been entered, loses nothing: a leaf yields exactly its entries in range, and nothing in range comes later |
| `Selecting.SkippedHasNothing` | rust/dialog-search-tree/src/walker.rs:174-191 | descending into the first child whose bound reaches the start of the range skips no entry in range |
| `Selecting.WalkReads` | rust/dialog-search-tree/src/walker.rs:74-190 | descending to the start of the range and walking on from there reads exactly the entries in range, in order, each block fetched from the disk of its own moment |
| `Selecting.RangeIsWithin` | rust/dialog-artifacts/src/tree.rs:381-394 | the entries read are those that the range read of the ordered map, on which scans are defined, streams |
| `Selecting.ReadIsPinned` | rust/dialog-artifacts/src/artifacts.rs:352-371 | a range read yields exactly the entries in range of the version it started with, whatever is committed or reset meanwhile |
| `Selecting.Select` | rust/dialog-artifacts/src/artifacts.rs:352-371 | a select over a pinned version, the empty one included, reading blocks while the store moves on, answers and faults exactly as a scan of that version does |
| `ForkStream.RunKeeps` | rust/dialog-query/src/stream.rs:49-87 | in every interleaving a live side's received items followed by its queued ones are, in order, the items offered to it; the producer has stopped only at the end, at an error, or with both sides gone |
| `ForkStream.ReceiveDelivers` | rust/dialog-query/src/stream.rs:75-85 | in every reachable state a receive step of a live side with something queued hands it exactly the input's next item |
| `ForkStream.NothingLost` | rust/dialog-query/src/stream.rs:49-87 | once the producer has stopped, a side that was not dropped has or will get every item, whatever the other side did |
| `ForkStream.QueueDrains` | rust/dialog-query/src/stream.rs:75-85 | once the producer has stopped, each receive step hands over exactly the next queued item |
| `ForkStream.EveryItemArrives` | rust/dialog-query/src/stream.rs:49-87 | after enough producer steps, a side that is never dropped and then receives as often as there are items has received all items in order, whatever the other side does |
| `ForkStream.ReceivesInOrder` | rust/dialog-query/src/stream.rs:72-87 | neither side ever receives anything but the input's items in order |
| `ForkStream.DroppedIsGone` | rust/dialog-query/src/stream.rs:55-60 | a dropped side keeps what it received and never receives or holds anything more |
| `ForkStream.FailureLooksLikeEnd` | rust/dialog-query/src/stream.rs:60-71 | an input that fails cannot be told from one that ends there, in any interleaving |
| `ForkStream.ProducerGetsOn` | rust/dialog-query/src/stream.rs:52-71 | no consumer can hold the producer up, and it stops after boundedly many steps of its own |
| `ForkStream.ProducerStops` | rust/dialog-query/src/stream.rs:61-72 | the producer has stopped after four steps of its own for each item and one more, whatever comes between them |
| `ForkStream.StopsWhenAlone` | rust/dialog-query/src/stream.rs:62-71 | once both sides are gone the producer pulls at most one more item and stops within six steps of its own |
| `ForkStream.NoticedIsOver` | rust/dialog-query/src/stream.rs:68-71 | once it has noticed that both are gone it pulls nothing more and stops within two steps of its own |

## Left out

- How the search tree edits its nodes (splitting, caching, differentials): a batch is an update of an ordered finite map in the store, and in `Persistence` any change whose new nodes are in the delta. Reading nodes back is modelled in `Selecting`.
- BLAKE3 is a parameter. No lemma asks for it to be injective: key-level results need nothing of it, content-level results ask that the texts at hand do not collide.
- Store.Answer: for facts whose names and symbols hold no NUL byte and do not collide. `Store.Respond` asks neither, at the level of key bytes; two symbols that differ only in NULs at their end have the same bytes and count as one value.
- Mutation.Apply: storage errors while applying a batch are not modelled; in `Persistence` they are one of the ways a transaction fails.
- Persistence.Session: collisions among the run's own blocks are excluded, and a revision is named by its tree instead of its hash. For runs that commit a tree which is not on disk safety is not claimed; `Persistence.SafeExactlyFromDurable` and `Persistence.StrandedCommitDangles` say what happens there.
- Persistence.SessionsAreSafe: the same.
- Selecting.Select: a version is taken to be a search tree (keys strictly ascend, no node is empty), which editing it keeps; errors while fetching a block and the limit of 32 levels are not modelled.
- Bodies.OrdersAgree: for posed bodies. The condition is exact for answering every step faithfully; that every body outside it depends on its order is not claimed.
- Bodies.PlanAndEvaluate: the rows of a body that is not posed are those of its greedy order, and no more is said of them here. Conflicts between kinds, which inference reports as errors, do not arise, since values are untyped.
- Rules.OperandsDelivered: that an operand which is not secured is lost on some store is not claimed, and is false (`Rules.UnsecuredButKept`); deciding it would take weighing the facts that the other premises call for.
- Operands.SecuredIsExact: exact for arguments that know of a row only which names may be absent or missing; facts shared between premises are not weighed.
- Rules.Compile: the rejections for conflicting kinds and for mismatched coalesce constraints are not modelled.
- Rows hold untyped values: kinds of terms are modelled only as far as they admit absence. Prefix refinements and filtering by kind are not modelled, and neither is the error a value of the wrong type causes in an entity or attribute slot.
- Cause terms of scans are blank, and citing claims is not modelled.
- Choosing the winner among several values of a single-valued attribute: a scan sees every fact it is given.
- Formulas, concepts, coalesce, comparison and the other constraints: the planner covers them through their slots, evaluation does not.
- Codec.RoundTrip: for encodings shorter than 2^64 bytes, as lengths are 64-bit numbers.
- Overflow of summed plan costs: costs are natural numbers.
- Verifying a certificate and listing a store are functions; the listing is taken to return certificates of the audience asked for.
- Blob differentials, CSV import and export, web bindings, sites, operators, profiles, macros and capability types.
