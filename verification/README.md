# A verified model of the bundled gnulib core

This project models, in Dafny, the hard part of the C code under `src/gnu`: the chained hash table, the permuting option
scanner, file-name exclusion with its glob matcher, exact rounding of sizes, integer printing within a static bound, and
the flattening of argp option trees for parsing and for help. Each module follows one component:

| file | component |
|---|---|
| Products.dfy | products and their order, for the proofs |
| Primes.dfy, HashTuning.dfy | primes and sizes of hash tables |
| HashModel.dfy | the hash table as a value: buckets, transfer, rehash, undo, and the set it stands for |
| HashTable.dfy | the hash table in place: bucket array, linked overflow nodes, free list, counters |
| HashRuns.dfy | whole runs of hash-table operations |
| Exchange.dfy, GetoptSpec.dfy, Getopt.dfy | the option scanner |
| GetoptMeaning.dfy | what each element of an argument vector means to the scanner, said of its text |
| Fnmatch.dfy, Exclude.dfy | glob matching and exclusion lists |
| Decimals.dfy, Anytostr.dfy | decimal notation and the integer printer |
| HumanModel.dfy, Human.dfy | sizes in human-readable form |
| ArgpTree.dfy, ArgpParse.dfy | argp trees as getopt tables |
| ArgpRun.dfy | parsing a vector with an argp tree: getopt over the tables, and dispatch |
| ArgpHelp.dfy | argp trees as help lists |

What the C code takes from outside is a parameter here. The allocator has an arbitrary answer for every request, and
the requests are counted, so that every theorem holds for every pattern of failures and can say which calls were refused.
Hasher and comparator are arbitrary functions subject to what the source demands of them. The tuning ratios of the hash
table are reals. Wrap-around of `size_t`, `uintmax_t` and `int` is written out where it can happen. The locale is C,
characters are single bytes, file names are POSIX ones.

Five promises turn out not to hold on all inputs. Each is stated with the exact condition under which it does hold, and
shown to fail on an input or a family of them:

- `fnmatch` misses matches of a star that is followed by an escaped slash under FNM_PATHNAME (`Fnmatch.ExactUnlessStuck`,
  `Fnmatch.StuckExample`).
- A lookup of stored names can find a name that the slow matcher rejects, behind a double slash
  (`Exclude.LookupIsMatchingExactly`, `Exclude.DoubleSlashExample`).
- The division at the start of `human_readable` is exact just when its products fit in `uintmax_t`
  (`HumanModel.SetupIsExactIfItFits`, `HumanModel.SetupCanWrap`).
- The space counted for the short options of an argp tree is one character short under ARGP_NO_ARGS just when every
  entry uses all its three characters (`ArgpParse.SpaceSuffices`, `ArgpParse.NoArgsCanOverflow`). The comment in
  `calc_sizes` calls the counts maximum lengths.
- Growing a full hash table whose ratios are acceptable need not make it larger; it does just when an integer lies
  between the loads of one bucket more and of the scaled size, as with the default ratios and with `is_n_buckets`
  (`HashTuning.GrowthEnlarges`, `HashTuning.GrowthCanFail`). The comment in `check_tuning` calls its margin of 0.1 good
  enough for allocations to grow.

`dafny verify dfyconfig.toml` checks the whole project.

## Model

| member | source | states |
|---|---|---|
| `Primes.IsPrime` | src/gnu/hash.c:443-457 | The answer is true exactly for primes, on every odd candidate from 11 to SIZE_MAX, although the running square wraps around for the large ones. |
| `Primes.TrialDivisionSuffices` | src/gnu/hash.c:443-457 | A number without a divisor up to its square root is prime. |
| `Primes.NextSquare` | src/gnu/hash.c:449-454 | The incrementally updated square stays the square of the divisor as long as it cannot have wrapped. |
| `Primes.StaysInReach` | src/gnu/hash.c:449-454 | When the square may wrap, the loop does not pass a square root of -7 modulo 2^64, whose wrapped square is at least every candidate but the last three. |
| `Primes.LastThreeAreNotPrime` | src/gnu/hash.c:449-456 | The odd candidates above 2^64 - 7, which that square does not stop, are not prime. |
| `Primes.NextPrime` | src/gnu/hash.c:462-476 | The search ends with the least prime that is at least max(candidate, 11), and with SIZE_MAX just when there is none. |
| `HashTuning.ComputeBucketSize` | src/gnu/hash.c:543-557 | A prime from 11 on, at most every prime that is large enough for the candidate divided by the growth threshold, and short of it by less than one bucket; 0 just when every prime that is large enough is too large for an array. |
| `HashTuning.CandidateEntriesFit` | src/gnu/hash.c:559-566 | With fewer than `candidate` entries, a table sized for `candidate` asks for no growth, despite the truncation of its size. |
| `HashTuning.RatiosKeepDistance` | src/gnu/hash.c:511-537 | Acceptable ratios are those that keep a distance of a tenth from 0 and 1 and from each other; the default ratios are 0, 1, 0.8 and 1.414, and acceptable. |
| `HashTuning.ArrayLimit` | src/gnu/hash.c:554-555 | The largest array of pointers is the largest whose size in bytes fits in ptrdiff_t. |
| `HashTuning.SizeMeans` | src/gnu/hash.c:543-557 | The size for a candidate, said of the candidate and the ratio alone. |
| `HashTuning.NoSizeMeans` | src/gnu/hash.c:543-557 | A candidate without a size is one for which every prime that is large enough is too large for an array. |
| `HashTuning.LoadTests` | src/gnu/hash.c:1063-1163 | The load tests, with the second look after the ratios have been checked: full means above the growth threshold, and also above 0.8 if the ratios are not acceptable; sparse means below the shrink threshold of acceptable ratios. |
| `HashTuning.GrowthEnlarges` | src/gnu/hash.c:1058-1090 | For all acceptable ratios and all table sizes, a growth makes the table larger if and only if is_n_buckets is set or an integer lies between the loads of n + 1 and of growth_factor * n buckets; the new size is at most every prime that reaches growth_factor * n. |
| `HashTuning.RoomToGrow` | src/gnu/hash.c:517-521 | Ratios with growth_threshold * ((growth_factor - 1) * n - 1) >= 1 let a table of n buckets grow. |
| `HashTuning.DefaultGrows` | src/gnu/hash.c:517-521 | The default ratios let every table grow. |
| `HashTuning.GrowthCanFail` | src/gnu/hash.c:517-521 | With the acceptable ratios 0.11 and 1.11 a full table of 11 buckets keeps its size, and one of 13 gets smaller. |
| `HashTuning.GrowthIsImpossible` | src/gnu/hash.c:1073-1084 | A growth is given up without a request only if every prime that reaches growth_factor * n is too large for an array. |
| `HashTuning.ShrinkingReduces` | src/gnu/hash.c:1156-1178 | A shrinking never makes a table larger, and makes it smaller whenever a smaller prime reaches shrink_factor * n. |
| `HashTuning.OwnSizeWillDo` | src/gnu/hash.c:1165-1178 | A shrinking never fails for want of a size. |
| `HashTuning.InsertionSizeHolds` | src/gnu/hash.c:1058-1090 | What an insertion does to the size, said of the load and the ratios: below the threshold nothing; above it the table gets larger just when the ratios let it grow, and always when unacceptable ratios are replaced. |
| `HashTuning.DeletionSizeHolds` | src/gnu/hash.c:1156-1192 | What a deletion does to the size: it never grows, is kept above the shrink threshold or when a request is refused, and becomes smaller when a smaller prime will do. |
| `HashModel.BucketContents` | src/gnu/hash.c:859-932 | In a table whose entries are in their buckets, a bucket holds exactly the entries that hash to it, with multiplicity. |
| `HashModel.SameBuckets` | src/gnu/hash.c:985-1019 | Two such tables of one size with the same entries agree bucket by bucket, up to order. |
| `HashModel.FewerNodes` | src/gnu/hash.c:998-1015 | A table with fewer entries needs no more overflow nodes: the counting argument behind the undo. |
| `HashModel.TransferKeeps` | src/gnu/hash.c:859-932 | Every transfer, finished or cut short by malloc, keeps all entries and their placement; nodes in use and recycled are as many as before plus those granted by malloc. |
| `HashModel.TransferEmpties` | src/gnu/hash.c:859-932 | A transfer that succeeds empties its source; one told to be safe always succeeds and leaves only bucket heads. |
| `HashModel.TransferRefused` | src/gnu/hash.c:909-916 | A transfer fails if and only if a request for memory is refused, and then only one was. |
| `HashModel.RefusalsAdd` | src/gnu/hash.c:750-770 | Requests refused, and requests granted, over two stretches of a run add up. |
| `HashModel.TransferOutcome` | src/gnu/hash.c:985-1005 | A transfer into an empty table has moved everything, or leaves enough nodes to rebuild the old table. |
| `HashModel.HeadFindsNode` | src/gnu/hash.c:909-921 | While the old table is rebuilt, a head whose bucket is taken finds a recycled node. |
| `HashModel.SecondPassSucceeds` | src/gnu/hash.c:1007-1015 | The second pass of the undo succeeds without a call of malloc. |
| `HashModel.UndoRestores` | src/gnu/hash.c:998-1015 | From any state that has the nodes, the two passes put every entry back without a request, leave the other table empty, and keep the number of nodes. |
| `HashModel.RehashKeepsEntries` | src/gnu/hash.c:942-1019 | For every hasher and every pattern of failures a rehash never aborts; it moves all entries to the new table, or back to the old one if and only if a request was refused, and the nodes are as many as before plus those granted. |
| `HashModel.FailedRehashIsUndone` | src/gnu/hash.c:998-1019 | After a failed rehash every bucket holds the same entries again, and both counters are what they were. |
| `HashModel.OnePassUndoCanFail` | src/gnu/hash.c:1007-1011 | Undoing in one pass would not do: a table, a hasher and a failure from which a single pass finds no node. |
| `HashModel.BucketDecides` | src/gnu/hash.c:260-274 | Searching the one bucket an entry hashes to is searching the whole table. |
| `HashModel.SearchIsMatch` | src/gnu/hash.c:789-851 | Searching a bucket gives the entry of the set that matches, and NULL just when none does. |
| `HashModel.MatchIsUnique` | src/gnu/hash.c:789-851 | At most one entry of a table matches a given one. |
| `HashModel.DepositIsSound` | src/gnu/hash.c:1092-1117 | Depositing an unmatched entry adds it to the set, keeps entries pairwise different and in their buckets, and raises the counters accordingly. |
| `HashModel.RemoveIsSound` | src/gnu/hash.c:802-851 | Removing an entry from its bucket removes exactly it from the set. |
| `HashTables.Table.AllocateEntry` | src/gnu/hash.c:750-770 | A node comes from the free list if it has any, else from malloc, and is in no chain. |
| `HashTables.Table.FreeEntry` | src/gnu/hash.c:775-781 | The node becomes the first of the free list. |
| `HashTables.Table.TransferFrom` | src/gnu/hash.c:859-932 | The relinking in place does to chains, counters, free list and allocator exactly what the transfer of the value model does. |
| `HashTables.Table.FindEntry` | src/gnu/hash.c:789-851 | The search finds what searching the bucket finds, and where it is linked. |
| `HashTables.Table.Lookup` | src/gnu/hash.c:260-274 | The result is the entry of the set that is the given one or matches it, or NULL when none does. |
| `HashTables.Table.RemoveEntry` | src/gnu/hash.c:802-851 | Unlinking, whether from the head, with the next entry bumped up, or from the overflow, removes just that entry, and the free list gains a node just when the bucket had overflow. |
| `HashTables.Table.Undo` | src/gnu/hash.c:1012-1015 | From any half-finished transfer the two passes restore all entries in place without calling malloc; the abort is unreachable. |
| `HashTables.Table.Refill` | src/gnu/hash.c:965-1019 | The table ends up with new buckets or with the old ones, all entries in place either way; it fails if and only if one request was refused. |
| `HashTables.Table.CheckTuning` | src/gnu/hash.c:511-537 | Unacceptable ratios are replaced by the defaults, and the ratios are acceptable afterwards. |
| `HashTables.Table.Initialize` | src/gnu/hash.c:593-646 | An empty valid table of the right size; NULL if and only if the ratios are unacceptable, a request was refused, or every prime that is large enough is too large for an array. |
| `HashTables.Table.RehashTo` | src/gnu/hash.c:942-1019 | Success gives the computed size; failure leaves every bucket and both counters as they were, and happens if and only if a request was refused or the size is impossible. |
| `HashTables.Table.GrowIfFull` | src/gnu/hash.c:1058-1090 | A table that is full, also by the checked ratios, grows to the size for the next candidate; any other is left alone without a request. It fails if and only if a request was refused or the size is impossible. |
| `HashTables.Table.ConfirmAbsent` | src/gnu/hash.c:1086-1088 | The second search, after a growth, returns NULL, so the abort behind it is unreachable. |
| `HashTables.Table.InsertIfAbsent` | src/gnu/hash.c:1037-1117 | 1 adds the entry to the set, 0 returns the entry that matches, -1 leaves the set alone and is returned if and only if a request was refused or a full table cannot grow, and then no prime would do; a table above its growth threshold becomes larger just when the ratios let it grow, and below it keeps its size; without growth malloc is asked just when the bucket is taken and the free list empty. No overflow node is lost or counted twice. |
| `HashTables.Table.DropFreeList` | src/gnu/hash.c:1180-1190 | Every recycled node is given back to malloc, and nothing else changes. |
| `HashTables.Table.ShrinkIfSparse` | src/gnu/hash.c:1156-1192 | A table that is sparse, also by the checked ratios, shrinks to the size for the smaller candidate unless a request is refused or the size is impossible, and then gives up its free list; no entry is lost. |
| `HashTables.Table.Delete` | src/gnu/hash.c:1139-1197 | The entry that matches is removed from the set and returned; NULL means that none matched and nothing changed. When a bucket became empty and the load is below the shrink threshold, the table becomes smaller if a smaller prime will do, unless a request is refused; it never becomes larger. Every overflow node stays in use, is recycled, or is given back. |
| `HashTables.Table.Clear` | src/gnu/hash.c:652-688 | The set becomes empty, both counters zero, every overflow node goes to the free list, and the table stays valid. |
| `HashTables.Table.TableOk` | src/gnu/hash.c:200-226 | True exactly when the stored counters are the number of buckets in use and the number of entries; a valid table therefore always passes. |
| `HashRuns.Perform` | src/gnu/hash.c:652-1197 | Any one operation, under any ratios, keeps the table valid, answers truthfully about the set, and changes the set as the answer implies. |
| `HashRuns.Run` | src/gnu/hash.c:652-1197 | Over every sequence of insertions, deletions, lookups, clears, rehashes and changes of the ratios to any values, and any failures of malloc, the table refines a set of pairwise different entries, and the overflow nodes in use and recycled stay in balance with those malloc has handed out and got back. |
| `HashRuns.Populate` | src/gnu/hash.c:559-566 | A table with room for `candidate` entries takes that many without changing its size: as many are refused as requests were refused, no more are left out, and entries that match nothing are all added but for those. |
| `HashRuns.InitializeAndFill` | src/gnu/hash.c:559-646 | The promise of hash_initialize(candidate): when malloc refuses nothing and the ratios and the size are possible, the table is there and holds any `candidate` different entries, at its first size; in general, different entries are all added but for one for each refused request. |
| `Exchange.SwapBlocks` | src/gnu/getopt.c:187-193 | Two equally long stretches of the vector change places. |
| `Exchange.BottomIsShort` | src/gnu/getopt.c:180-196 | After the short bottom stretch is swapped with the end of the top one, what remains is a smaller exchange. |
| `Exchange.TopIsShort` | src/gnu/getopt.c:197-213 | The same for a short top stretch. |
| `Exchange.ExchangeBlocks` | src/gnu/getopt.c:143-220 | For all bottom <= middle <= top the two blocks trade places, each keeping its order, and the rest is untouched. |
| `GetoptSpec.LookupKeepsPromise` | src/gnu/getopt.c:507-634 | An exact name wins wherever it stands; an abbreviation is accepted just when everything it could mean is the same option or, outside long-only mode, agrees on has_arg, flag and val. |
| `GetoptSpec.Decode` | src/gnu/getopt.c:461-1153 | Decoding moves on by at most two elements, takes the next element only as the argument, and otherwise leaves a shorter rest. |
| `GetoptSpec.OptionIsNotTheEnd` | src/gnu/getopt.c:461-1153 | No option is reported as -1, unless a long option without a flag has that value. |
| `GetoptSpec.PartitionIsStable` | src/gnu/getopt.c:382-459 | Splitting a vector sends every element to one side only and keeps the order on each side. |
| `GetoptSpec.ClusterTakesNext` | src/gnu/getopt.c:817-1153 | An element that is not tried as a long option takes the following one just when the first of its options that takes an argument is its last one and requires it. |
| `GetoptMeaning.OperandMeans` | src/gnu/getopt.c:404-459 | What does not start with a dash, and a dash alone, is an operand: set aside by a permuting scan, the end of a scan that stops at operands, reported with the value 1 by one that returns in order. |
| `GetoptMeaning.DashesMean` | src/gnu/getopt.c:412-441 | A double dash is taken like an option and ends the scan; what follows are operands. |
| `GetoptMeaning.OptionMeans` | src/gnu/getopt.c:443-467 | Everything else is read as options, behind its dash, or behind two if there are long options. |
| `GetoptMeaning.PromiseDecides` | src/gnu/getopt.c:507-634 | The promise about names decides the lookup: no other choice keeps it. |
| `GetoptMeaning.AgreeMeans` | src/gnu/getopt.c:532-541 | Options agree when they differ in nothing but the name. |
| `GetoptMeaning.LongMeans` | src/gnu/getopt.c:476-731 | For an element of dashes, a selected name and perhaps `=` and an argument, in every order: the report has the value, or 0 for a flag, and the text behind `=` as the argument; the next element just when has_arg is 1 and there is no `=`; an unwanted or missing argument is an error that leaves the value in optopt; otherwise longind is the option. |
| `GetoptMeaning.NoLongMeans` | src/gnu/getopt.c:594-812 | An ambiguous name, or an unknown one that is not read as short options, is one error report with optopt 0. |
| `GetoptMeaning.ListsMeans` | src/gnu/getopt.c:817-1153 | The marks behind the first occurrence of a character in the option string say whether it takes an argument. |
| `GetoptMeaning.ArityLists` | src/gnu/getopt.c:817-1153 | Every short option is listed with the marks for its argument. |
| `GetoptMeaning.PlainShortMeans` | src/gnu/getopt.c:817-1153 | A listed character without marks is reported, an unlisted one is an error with that character in optopt, and the cluster goes on behind it. |
| `GetoptMeaning.ArgumentShortMeans` | src/gnu/getopt.c:1087-1153 | A required argument is the rest of the element or else the next one, and missing at the end of the vector, with the character in optopt; an optional one is the rest of the element, if any. |
| `Getopt.FindLong` | src/gnu/getopt.c:507-634 | The search in place makes the promised choice, whatever malloc answers while the ambiguity list is built. |
| `Getopt.EverythingPlaced` | src/gnu/getopt.c:431-441 | When the end is reached after the last exchange, options come first and operands behind them. |
| `Getopt.StepPermuted` | src/gnu/getopt.c:461-1153 | Reading one option keeps the vector placed, and what has been read together with what remains. |
| `Getopt.StepInPlace` | src/gnu/getopt.c:461-1153 | The same for the orders that do not permute. |
| `Getopt.Scanner.constructor` | src/gnu/getopt.c:224-287 | The prefix of the option string and POSIXLY_CORRECT decide the order; a scan starts with nothing read. |
| `Getopt.Scanner.ExchangeOperands` | src/gnu/getopt.c:143-220 | The options read behind the skipped operands come before them, and first_nonopt and last_nonopt follow the operands. |
| `Getopt.Scanner.SkipOperands` | src/gnu/getopt.c:404-409 | Skipping extends the range of operands and keeps the invariant of the scan. |
| `Getopt.Scanner.EndAtDashes` | src/gnu/getopt.c:412-441 | At `--` everything behind it becomes an operand, and the vector is the stable partition of the given one. |
| `Getopt.Scanner.NextElement` | src/gnu/getopt.c:382-459 | The next option element is found or the scan has ended with the vector partitioned; first_nonopt <= last_nonopt <= optind <= argc throughout. |
| `Getopt.Scanner.ReadShort` | src/gnu/getopt.c:817-1153 | One short option of a cluster is read as its entry in the option string says. |
| `Getopt.Scanner.ReadLong` | src/gnu/getopt.c:476-812 | A long option is looked up by name, takes its argument, or is left to be read as short ones. |
| `Getopt.Scanner.ReadOption` | src/gnu/getopt.c:461-1153 | One call in the middle of an element does what decoding the element does. |
| `Getopt.Scanner.NextInPlace` | src/gnu/getopt.c:412-1153 | In the orders that do not permute, the vector is never changed, and what has been reported together with what remains is the course of the whole scan. |
| `Getopt.Scanner.Next` | src/gnu/getopt.c:345-1153 | Every call, in every order, keeps: what has been read together with what remains is what reading the whole vector gives; -1 is returned at the end only. |
| `Getopt.Scanner.ScanAll` | src/gnu/getopt.c:345-1153 | A whole permuting run ends with argv[0], the options with their arguments and `--`, then all operands, each part in the given order, optind at the first operand; in the other orders the vector is as given and optind where the scan stopped. Every run has reported what reading the given vector in place reports, up to the first -1, which is the end unless a long option without a flag has that value. |
| `Getopt.ScanVector` | src/gnu/getopt.c:224-1153 | The same from initialization on, for every vector, the empty one included: a leading minus returns operands in order, a leading plus or POSIXLY_CORRECT stops at them, anything else permutes; the options are those behind that prefix. |
| `Fnmatch.StarUnfolds` | src/gnu/fnmatch_loop.c:80-124 | A star matches nothing, or one character it may cross and then as a star again. |
| `Fnmatch.StarStar` | src/gnu/fnmatch_loop.c:94-124 | A second star adds nothing. |
| `Fnmatch.StarAny` | src/gnu/fnmatch_loop.c:94-124 | A star and a question mark may change places, so that a run of both can be read in any order. |
| `Fnmatch.StarAtEnd` | src/gnu/fnmatch_loop.c:126-146 | A final star matches unless a slash it may not cross is left and leading directories will not do. |
| `Fnmatch.StarBeforeSlash` | src/gnu/fnmatch_loop.c:170-178 | Under FNM_PATHNAME a star before a slash can only stop at the next slash. |
| `Fnmatch.StarBeforeText` | src/gnu/fnmatch_loop.c:179-193 | A match behind a star can only continue at the first character of the text that follows, in reach of the star. |
| `Fnmatch.PartOfMatch` | src/gnu/fnmatch_loop.c:974-981 | A match with FNM_LEADING_DIR is a match, without it, of a part of the name that ends at its end or before a slash. |
| `Fnmatch.MatchOfPart` | src/gnu/fnmatch_loop.c:974-981 | And the other way round. |
| `Fnmatch.LeadingDirectory` | src/gnu/fnmatch_loop.c:974-981 | With FNM_LEADING_DIR a name matches just when, without it, the name or a part of it that ends before a slash does. |
| `Fnmatch.ElementsMean` | src/gnu/fnmatch_loop.c:48-197 | What a pattern of one element matches: a character itself, an escaped one the character, a question mark one character, a star any text, the last two without slashes under FNM_PATHNAME. |
| `Fnmatch.GlobConcatenates` | src/gnu/fnmatch_loop.c:24-197 | A pattern in two parts matches just the names that are a match of the one followed by a match of the other. |
| `Fnmatch.NoSlashCrossed` | src/gnu/fnmatch_loop.c:48-197 | Under FNM_PATHNAME a pattern without a slash matches only names without one. |
| `Fnmatch.MatchStar` | src/gnu/fnmatch_loop.c:80-197 | The search behind a star decides the glob relation, except for stuck patterns, which it rejects. |
| `Fnmatch.MatchBehindStar` | src/gnu/fnmatch_loop.c:147-197 | The same once the run of wildcards has been read. |
| `Fnmatch.Match` | src/gnu/fnmatch_loop.c:24-982 | The matcher terminates, and returns 0 exactly when the glob relation holds and the pattern is not stuck. |
| `Fnmatch.IncompleteNeverMatches` | src/gnu/fnmatch_loop.c:70-73 | A pattern that ends in a lone backslash matches nothing. |
| `Fnmatch.SampleMatches` | src/gnu/fnmatch_loop.c:24-197 | Every complete pattern matches a name that can be read off it. |
| `Fnmatch.ExactUnlessStuck` | src/gnu/fnmatch_loop.c:147-197 | The matcher agrees with the glob relation on every name if and only if the pattern has no star before an escaped slash under FNM_PATHNAME, or is incomplete. |
| `Fnmatch.StuckExample` | src/gnu/fnmatch_loop.c:149-197 | Star, escaped slash matches the name a/ as a glob, and the matcher says no. |
| `Exclude.PatternHasWildcards` | src/gnu/exclude.c:142-177 | True exactly when some wildcard character is not escaped. |
| `Exclude.UnescapePattern` | src/gnu/exclude.c:179-186 | In place, every escape is replaced by the character it protects; a lone trailing backslash stays. |
| `Exclude.UnescapingKeepsMeaning` | src/gnu/exclude.c:596-598 | For a pattern without wildcards, fnmatch on the pattern and plain comparison with its unescaped form agree on every name if and only if it does not end in a lone backslash. |
| `Exclude.ExcludeFnmatch` | src/gnu/exclude.c:377-393 | True exactly when, at the beginning or, if not anchored, behind a slash that no other slash follows, fnmatch with the flags of the options matches, or, without wildcards, the text is the pattern or continues it with a slash under FNM_LEADING_DIR. |
| `Exclude.DirectIsMatches` | src/gnu/exclude.c:354-393 | This meaning, said of the fields of the options alone, is that of the two matchers. |
| `Exclude.SlashStopsPattern` | src/gnu/exclude.c:377-393 | With wildcards under FNM_PATHNAME and no leading directories, a pattern without slash or bracket matches only a part of the name that has no slash up to the end. |
| `Exclude.PrefixStar` | src/gnu/exclude.c:377-393 | An anchored letter and star match every name that starts with the letter; behind it no slash is allowed just when FNM_PATHNAME is set and FNM_LEADING_DIR is not. |
| `Exclude.LookUpFrom` | src/gnu/exclude.c:434-451 | Cutting the buffer at its last slash again and again finds exactly the leading directories that are stored. |
| `Exclude.FileNameMatches` | src/gnu/exclude.c:425-465 | True exactly when some stored name is found at some start and some allowed end. |
| `Exclude.LookupFindsMatches` | src/gnu/exclude.c:425-465 | The lookup finds a name whenever the slow matcher matches a stored one. |
| `Exclude.LookupIsMatching` | src/gnu/exclude.c:425-465 | For names without consecutive slashes the lookup finds one exactly then. |
| `Exclude.HarmlessLookup` | src/gnu/exclude.c:425-465 | For names whose double slashes are harmless the lookup finds a stored name exactly when the slow matcher matches one. |
| `Exclude.LookupIsMatchingExactly` | src/gnu/exclude.c:425-465 | For a given name, lookup and slow matching agree on every set of stored names if and only if each of its double slashes is harmless. |
| `Exclude.DoubleSlashMatch` | src/gnu/exclude.c:453-462 | The text from the second of two slashes on is found when it is stored, but the slow matcher matches it just when it is a leading directory of the whole name. |
| `Exclude.DoubleSlashExample` | src/gnu/exclude.c:453-462 | With /b stored, the lookup finds it in the name a//b and the slow matcher does not. |
| `Exclude.ExcludeList.AddExclude` | src/gnu/exclude.c:517-603 | The option is appended to those given before; new segments and hash or pattern storage represent exactly the options in order. |
| `Exclude.ExcludeList.FilePatternMatches` | src/gnu/exclude.c:407-420 | True exactly when some pattern of the segment matches. |
| `Exclude.ExcludeList.VerdictAt` | src/gnu/exclude.c:480-508 | A segment gives its polarity when one of its options applies, and leaves the verdict to the older segments otherwise. |
| `Exclude.ExcludeList.ExcludedFileName` | src/gnu/exclude.c:469-513 | The walk over segments, newest first, gives the verdict of the last option that applies, else the opposite of the first, and false for an empty list. |
| `Exclude.AppliesIsDirect` | src/gnu/exclude.c:596-598 | Moving a pattern without wildcards to a hash segment does not change what exclude_fnmatch says of it, for names whose double slashes are harmless. |
| `Exclude.LastMatchDecides` | src/gnu/exclude.c:469-603 | For any list of options, and any name whose double slashes are harmless to those stored as names, the compiled segments give the polarity of the last option that exclude_fnmatch matches on the option as given, else the opposite of the first one's. |
| `Exclude.PrefixStarExcludes` | src/gnu/exclude.c:469-513 | The list of that one option excludes just those names. |
| `Decimals.DecimalRoundTrip` | src/gnu/anytostr.c:41-54 | Decimal notation is canonical and denotes its number. |
| `Decimals.DecimalIsUnique` | src/gnu/anytostr.c:41-54 | Every canonical digit string is the notation of the number it denotes. |
| `Decimals.DecimalLength` | src/gnu/intprops.h:121-124 | A number below 10^k has at most k digits. |
| `Anytostr.LogBound` | src/gnu/intprops.h:121-124 | 2^485 < 10^146. |
| `Anytostr.BitsBoundSuffices` | src/gnu/intprops.h:121-124 | For every width b >= 1, 2^b < 10^ceil(146 b / 485). |
| `Anytostr.BitsBoundReaches` | src/gnu/intprops.h:121-124 | The bound is 146 b / 485, rounded up. |
| `Anytostr.BitsBoundIsExact` | src/gnu/intprops.h:121-124 | Up to 196 bits one digit less would not do. |
| `Anytostr.TextFits` | src/gnu/intprops.h:121-139 | The notation of every value of every integer type, the most negative one included, fits the static bound. |
| `Anytostr.BoundIsReached` | src/gnu/intprops.h:121-139 | For every type of up to 196 bits the longest value needs all of the static bound. |
| `Anytostr.PrintParse` | src/gnu/anytostr.c:35-57 | Parsing what is printed gives the value back. |
| `Anytostr.ParsePrint` | src/gnu/anytostr.c:35-57 | Every canonical text is what is printed for the number it denotes. |
| `Anytostr.WriteDigits` | src/gnu/anytostr.c:41-54 | The digits, written backwards from remainders of either sign, are the decimal notation of the absolute value. |
| `Anytostr.AnyToStr` | src/gnu/anytostr.c:35-57 | The text of the value stands at the returned place, ends with a null character, and never starts before the buffer. |
| `HumanModel.DescriptionIsUnique` | src/gnu/human.c:167-171 | A value has only one description by whole number, tenths and rounding code. |
| `HumanModel.OverflowTest` | src/gnu/human.c:199-201 | The test by division notices every wrap-around of the multiplication and nothing else. |
| `HumanModel.MultiplyDescribes` | src/gnu/human.c:195-207 | Without wrap-around the multiplied number describes the exact quotient. |
| `HumanModel.DivideDescribes` | src/gnu/human.c:209-218 | Without wrap-around the division leaves the description of the exact quotient. |
| `HumanModel.SetupIsExactIfItFits` | src/gnu/human.c:209-218 | With wrap-around written out, the division leaves the description of the exact quotient if and only if its products fit in uintmax_t. |
| `HumanModel.SetupCanWrap` | src/gnu/human.c:209-218 | The products do not fit, and the description is lost, for 2^64 - 1 in units of 2^63. |
| `HumanModel.ScaleStep` | src/gnu/human.c:284-295 | One division by an even base turns the description of x into that of x / base. |
| `HumanModel.OddBaseWouldNotDo` | src/gnu/human.c:284-295 | With an odd base the step can be wrong: a value whose description is lost. |
| `Human.Convert` | src/gnu/human.c:192-218 | The integer path is taken exactly under its guards, and leaves the description of n * from / to just when the division fits. |
| `Human.IntegerPathMeans` | src/gnu/human.c:192-218 | The integer path is taken when the one size is a multiple of the other and a multiplied number fits in uintmax_t, and in no other case. |
| `Human.WrapIsReached` | src/gnu/human.c:209-218 | The integer path is taken on that input. |
| `Human.Scale` | src/gnu/human.c:278-295 | The autoscale loop leaves the exact description of the value over base^exponent, below the base for every uintmax_t, with the least exponent that will do: the value is at least base^exponent if that is positive. |
| `Human.CapIsNotReached` | src/gnu/human.c:278-295 | The largest exponent is never what stops the loop, since 1000^8 > 2^64. |
| `Human.LargeNeedsExponent` | src/gnu/human.c:278-295 | A value of base^(e+1) or more, rounded to a whole number at exponent e, is not below the base. |
| `Human.CarryNeedsExponent` | src/gnu/human.c:329-342 | Nor is one that rounds to a full base there. |
| `Human.TenthsRound` | src/gnu/human.c:299-301 | The test on tenths and code rounds to tenths: up, down, or to the nearest with ties to even. |
| `Human.WholeRounds` | src/gnu/human.c:325-327 | The test on the whole number rounds to a whole number in the same sense. |
| `Human.NoTenthsLeft` | src/gnu/human.c:313-321 | A number rounded to tenths with no tenths left is also rounded to a whole one. |
| `Human.CarryRounds` | src/gnu/human.c:329-342 | Carrying a full base into the next exponent keeps the number rounded, printed as 1 or 1.0. |
| `Human.RoundTenths` | src/gnu/human.c:297-311 | Rounding to tenths with the carry of ten tenths is rounding, and leaves nothing for the second rounding to add. |
| `Human.RoundWhole` | src/gnu/human.c:325-343 | The whole number, with the carry into the next exponent, times base^exponent is the value rounded to one printed unit. |
| `Human.ToNumber` | src/gnu/human.c:278-343 | The number printed, times base^exponent, is the value rounded to one printed unit in the given style; when autoscaling it is below the base, the exponent is the least for which that holds, and tenths stand just where they are due. |
| `Human.OutputShowsNumber` | src/gnu/human.c:314-352 | Reading the printed text gives the rounded number. |
| `Human.Write` | src/gnu/human.c:314-352 | The text stands in front of the place of the suffix and within the buffer. |
| `Human.LongestSuffices` | src/gnu/human.h:30-40 | The static bound holds every square of a uintmax_t with separators of 16 bytes between all digits, a space and a suffix. |
| `Human.HumanReadable` | src/gnu/human.c:149-353 | On the integer path, with a division that fits, the printed number times base^exponent is n * from / to rounded up, down, or to the nearest with ties to even, to one printed unit; when autoscaling the number is below the base for every n, and the exponent is the least for which that holds. |
| `ArgpTree.ParentsAreLinked` | src/gnu/argp-parse.c:353-388 | Every parent link of a flattened tree leads to an earlier group that has this one as the child of that number. |
| `ArgpTree.LinksAreApart` | src/gnu/argp-parse.c:374-388 | No two groups have the same place below the same parent. |
| `ArgpTree.InputSlotsAreApart` | src/gnu/argp-parse.c:363-374 | Every group with a parent has an input slot of its own, within the space counted. |
| `ArgpTree.SlotsSuffice` | src/gnu/argp-parse.c:449-454 | The input slots that groups take are no more than the argps below the root. |
| `ArgpTree.GroupsAreArgps` | src/gnu/argp-parse.c:289-388 | The groups are, in preorder, all argps of the tree that have a table or a parser, and only those. |
| `ArgpTree.EntryMeans` | src/gnu/argp-parse.c:302-349 | Said of positions in a table: entry `at` stands for entry r <= at, which is not an alias or is the first, with only aliases behind it up to `at`. The entry gives its own name and character; its key is its own unless that is 0, else that of entry r; whether it takes an argument is up to entry r. |
| `ArgpTree.SearchFindsFirst` | src/gnu/argp-parse.c:717-735 | The search for a short option in the flattened string ends at its first declaration. |
| `ArgpTree.ArityIsDeclared` | src/gnu/argp-parse.c:312-323 | getopt reads from the flattened string the argument that the first declaration asks for. |
| `ArgpTree.UndeclaredIsNoOption` | src/gnu/argp-parse.c:312-323 | A character that no entry declares is no option for getopt. |
| `ArgpTree.ShortGoesToFirst` | src/gnu/argp-parse.c:717-735 | Comparing positions with the ends of the groups' parts gives the group of the first declaration. |
| `ArgpTree.EncodingIsExact` | src/gnu/argp-parse.c:336-345 | Group and key, sign included, are recovered from the value of a long option if and only if the key fits in 24 signed bits and the group number is below 128. |
| `ArgpTree.LongIsFirst` | src/gnu/argp-parse.c:325-349 | The long-option vector holds a name just when some entry gives it, and then as the first one does. |
| `ArgpTree.LongsAreDistinct` | src/gnu/argp-parse.c:325-349 | No long name is listed twice. |
| `ArgpParse.TextIsForGetopt` | src/gnu/argp-parse.c:401-405 | getopt takes the prefix for the order and the rest for the table, which does not ask for -W foo. |
| `ArgpParse.ShortDispatch` | src/gnu/argp-parse.c:717-740 | Every short option other than the colon and the prefix reaches the first group in preorder whose table gives it; if no entry uses a mark of getopt, with the argument that the option it stands for asks for. |
| `ArgpParse.LongDispatch` | src/gnu/argp-parse.c:741-748 | Every long name is found as the first entry in preorder that gives it: has_arg from the option that the entry stands for, and a value that leads back to that group and to the key of the entry, or of the option it stands for if that is 0, just when both fit. |
| `ArgpParse.CalcSizes` | src/gnu/argp-parse.c:429-455 | The counts are three characters and one long option for every entry, one group for every argp that needs one, one input for every argp below. |
| `ArgpParse.SpaceSuffices` | src/gnu/argp-parse.c:401-484 | The counted space holds everything that flattening writes, end markers included, if and only if ARGP_NO_ARGS is clear or some entry uses fewer than three characters. |
| `ArgpParse.NoArgsCanOverflow` | src/gnu/argp-parse.c:472-484 | A tree for which the counted space is too small under ARGP_NO_ARGS. |
| `ArgpParse.FindLongOption` | src/gnu/argp-parse.c:176-189 | The index of the first entry with the name, or -1 when there is none. |
| `ArgpParse.Parser.AddShort` | src/gnu/argp-parse.c:312-323 | The entry's character and argument marks are appended, and the string stays terminated. |
| `ArgpParse.Parser.AddLong` | src/gnu/argp-parse.c:325-349 | The entry's long option is appended unless its name is taken, and the vector stays terminated. |
| `ArgpParse.Parser.ConvertTable` | src/gnu/argp-parse.c:302-351 | One pass over a table, with the most recent option that is not an alias, adds exactly its entries. |
| `ArgpParse.Parser.PushGroup` | src/gnu/argp-parse.c:353-374 | The group records where its part of the string ends, its parent, and its input slots. |
| `ArgpParse.Parser.ConvertOptions` | src/gnu/argp-parse.c:289-388 | The walk with shared cursors fills all tables with the groups of the tree in preorder, within the space that is there. |
| `ArgpParse.Parser.ParseOpt` | src/gnu/argp-parse.c:717-748 | The dispatch in place selects the group that the flattened string and the group ends determine, or the one a long option's value names. |
| `ArgpParse.ParserInit` | src/gnu/argp-parse.c:391-484 | For every tree outside the one overflowing case, the space is counted, allocated and filled, and all parent links are right and apart. |
| `ArgpRun.FirstShortIs` | src/gnu/argp-parse.c:717-735 | The first entry in the flattened list to declare a character is its first declaration in the tree. |
| `ArgpRun.FirstLongIs` | src/gnu/argp-parse.c:325-349 | The same for a long name. |
| `ArgpRun.TablesAreDistinguishable` | src/gnu/argp-parse.c:336-345 | With fitting keys and groups no long option has the value that ends a scan. |
| `ArgpRun.DecodedIsAccounted` | src/gnu/argp-parse.c:796-833 | Whatever element getopt decodes with the flattened tables, it returns the value of an option of the tree, or an error. |
| `ArgpRun.ScanIsAccounted` | src/gnu/argp-parse.c:796-833 | Every report of every scan with the flattened tables, in every order, is an option of the tree, an operand or an error. |
| `ArgpRun.AccountedIsDispatchable` | src/gnu/argp-parse.c:717-748 | Every such value is one that parser_parse_opt can decode: a character, or the number of an existing group. |
| `ArgpRun.Dispatch` | src/gnu/argp-parse.c:717-748 | A reported option reaches the first group in preorder whose table gives it, with the key of the entry, or of the option it is an alias of if it has none, sign included. |
| `ArgpRun.ParseAll` | src/gnu/argp-parse.c:779-850 | Over every argument vector, getopt on the flattened tables reports what reading the vector reports, in the order that ARGP_IN_ORDER, ARGP_NO_ARGS and POSIXLY_CORRECT ask for, and every option it reports reaches the first group that gives it with the key of its table. |
| `ArgpRun.LongArgumentMeans` | src/gnu/argp-parse.c:325-349 | A long option on the command line, with or without an argument, is reported by getopt as the table of the first group that gives its name says. |
| `ArgpRun.ShortArgumentMeans` | src/gnu/argp-parse.c:312-323 | The flattened option string lists each short option with the marks for the argument that its first declaration asks for. |
| `ArgpHelp.KeysAreDeclared` | src/gnu/argp-help.c:485-495 | The merged string holds exactly the short options of the list. |
| `ArgpHelp.KeysAreDistinct` | src/gnu/argp-help.c:485-495 | The merged string holds no key twice. |
| `ArgpHelp.HitIsFirst` | src/gnu/argp-help.c:555-567 | While a list is read again next to its string, the next key is an option's own exactly when the option is the first to have it. |
| `ArgpHelp.KeysOfSum` | src/gnu/argp-help.c:885-910 | Merging adds the first occurrences of the second list that the first list does not shadow. |
| `ArgpHelp.FlatOfBlocks` | src/gnu/argp-help.c:469-494 | Cutting a table into entries loses and reorders nothing. |
| `ArgpHelp.BlockCount` | src/gnu/argp-help.c:453-460 | There are as many entries as options that are not aliases, each with its aliases. |
| `ArgpHelp.ShortIterate` | src/gnu/argp-help.c:547-570 | The walk over an entry calls back for exactly those options that are the first of the whole list to have their key, in order, until a call asks to stop. |
| `ArgpHelp.FindChar` | src/gnu/argp-help.c:339-348 | True exactly when the character is in the stretch. |
| `ArgpHelp.FillEntries` | src/gnu/argp-help.c:469-495 | The second pass fills in the entries of the table and a terminated string of keys, with offsets to each entry's part. |
| `ArgpHelp.Hol.constructor` | src/gnu/argp-help.c:431-499 | The list of one argp is valid, and its entries are those of the table. |
| `ArgpHelp.Merge` | src/gnu/argp-help.c:859-921 | The merged arrays hold the entries of both lists, with offsets into a string that has each key once, at its first occurrence. |
| `ArgpHelp.MergeEntries` | src/gnu/argp-help.c:885-912 | The loop over the second list gives each entry its place in the merged string and adds exactly the keys that are not shadowed. |
| `ArgpHelp.Hol.Append` | src/gnu/argp-help.c:835-924 | Appending keeps the list valid, and its entries are those of both lists in order. |
| `ArgpHelp.TreeBlocksArePreorder` | src/gnu/argp-help.c:1363-1382 | The entries of a tree hold the options of its groups in the order in which parsing numbers the groups. |
| `ArgpHelp.ArgpHol` | src/gnu/argp-help.c:1363-1382 | For every tree the merged string lists each key once, at its first occurrence in preorder, and every entry points to its part. |

## Left out

- The share library itself and its examples: sockets, files and messages over functions that are not part of this model.
- hash.c: data_freer, hash_free, the walking functions, the statistics of hash_print_statistics, and USE_OBSTACK.
- hash.c: `hash_string` and `raw_hasher`, since every lawful hasher is covered.
- hash.c: rounding of the `float` ratios; they are reals here.
- HashTables.Table.Lookup: the abort of safe_hasher for a slot out of range is excluded by the law of the hasher.
- HashTables.Table.RehashTo: requires that the quotient of candidate and growth threshold is not 0 / 0 and not -1 or less, because C gives the conversion of those no meaning.
- getopt.c: `-W foo`, the assignment through a flag pointer, all messages, the `_LIBC` flags of non-options, and callers that move optind during a scan.
- HashRuns.Run: a change of the ratios always reaches the table; in the source it no longer does once the table has fallen back on the defaults, which is a run without that change.
- fnmatch_loop.c: bracket expressions, FNM_PERIOD, FNM_CASEFOLD, FNM_EXTMATCH and wide characters.
- Fnmatch.Match: requires a pattern without bracket expressions, whose collation and class rules are a component of their own.
- Fnmatch.MatchStar: the same.
- Fnmatch.MatchBehindStar: the same.
- exclude.c: regular expressions, case folding, reading patterns from files, and allocation failure.
- Exclude.ExcludeList.ExcludedFileName: hash segments are sets of strings here; their table is the one of HashTable.dfy.
- human.c: the floating-point path, digit grouping, decimal points other than a period, the unit suffix, and humblock.
- Anytostr.AnyToStr: requires a signed type to have at least two bits; for one bit the static bound has no room for the sign and the digit.
- argp-parse.c: calling the parsers, non-option arguments, error messages and the default options.
- ArgpRun.Dispatch: a reported question mark may be an error or an option of that name; the source tells them apart by optopt, which is not part of the reports here.
- argp-help.c: clusters, sorting, layout and the text of usage messages; argp-fmtstream.c.
- ArgpHelp.ShortIterate: the visibility test is part of the function called back.
- System-call wrappers, time, stat and ACL files, and configuration headers: their behaviour rests on the operating system.
