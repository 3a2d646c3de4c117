# Op-mode discovery and bootstrap, modelled in Dafny

This project models the op-mode discovery engine of an FTC robot-controller library, together
with the bootstrap entry point that starts it and the process-wide bindings table it feeds.

- **AnnotationFtcRegister** goes through the class identifiers of the installed package. It skips
  identifiers that contain an entry of its no-check list. It loads the rest and groups the
  classes tagged `@TeleOpMode` or `@AutonomousMode` (and not `@Disabled`) by their pairing
  key. An empty key gets a fresh counter-valued key. It sorts each group with its op-mode
  comparator, re-keys the groups by the resolved name of their first member into a `TreeMap`,
  and flattens that map. Finally it registers the op modes of that map with the OpModeManager.
  Two buckets whose first members share a name occupy one TreeMap entry, so one of them is not
  registered; a counter key can also replace a bucket filed under an all-digit declared key.
  When neither happens, every enabled, tagged class is registered. If the name table (each
  name plus a one-byte record separator) would exceed 255 bytes, it registers only the "Too
  Many OpMode Names" placeholder.
- **FtcSimpleBootstrap.configure** stores the layout id and the OpModeManager in **Bindings**. It
  pairs its variadic arguments as alternating (String key, value) pairs into the bindings table,
  then runs one discovery pass. A mismatched element is fatal in debug mode and skipped
  otherwise. An empty String key followed by a value throws IllegalArgumentException in either
  mode, and then no discovery pass runs.

Modules, in dependency order:

| file | module | what it holds |
|---|---|---|
| java_lang.dfy | JavaLang | `Option`, the Java exceptions that can escape, and `Outcome` (completed or threw) |
| java_strings.dfy | JavaStrings | `String.compareTo`, `contains`, `indexOf` and `Integer.toString`, each tied to an independent definition |
| op_modes.dfy | OpModes | the class descriptor, `getOpModeName`, `OpModeComparator`, and the OpModeManager as a class that records its `register` calls |
| deny_list.dfy | DenyList | the no-check list test and the `buildClassList` scan as a specification |
| grouping.dfy | Grouping | `getNextAvailableIndex` and `findOpModes` as a specification, with the facts about buckets and counter keys |
| tree_map.dfy | OpModeTreeMap | the `TreeMap` as an ascending sequence of entries (`put`, `get`, iteration order) |
| name_budget.dfy | NameBudget | the 255-byte name-table check and the calls it leads to |
| annotation_ftc_register.dfy | AnnotationFtcRegister | the class with its `noCheckList` field and the imperative pass `LoadOpModes` |
| bindings.dfy | Bindings | the bindings class: layout id, OpModeManager and the key/value map |
| ftc_simple_bootstrap.dfy | FtcSimpleBootstrap | the argument-pairing loop as a specification, and `configure` in both overloads |

How Java constructs map to Dafny:

- Reflection becomes data. A loaded class is an `OpModeClass` value: its qualified and simple
  names, its two optional annotations and its `@Disabled` flag.
- The dex-file enumeration is a `seq<string>` of identifiers. `Class.forName` is a map
  `loadable` from identifiers to classes; an identifier outside that map fails to load.
- `Charset.defaultCharset()` is a parameter `encodedLen` that gives the encoded byte length of
  a name.
- The HashMap, LinkedList and TreeMap values local to the pass are Dafny values, reassigned by
  the imperative methods. The no-check list, the Bindings statics and the registrar's call log
  are class fields that the methods update in place.

Behaviour of the code that a reader might not expect, and that the model keeps:

- After a failed load, the identifier added to the no-check list is cut at `indexOf("$") - 1`
  (AnnotationFtcRegister.java:193). The cut drops the '$' and the character before it. An
  identifier whose first character is '$' makes `substring(0, -1)` throw
  `StringIndexOutOfBoundsException`, and that aborts the pass. An identifier whose second
  character is '$' adds the empty string, which denies every later identifier
  (`DenyList.DollarAtOneBlocksRest`).
- When both operands are TeleOp op modes, `OpModeComparator` reads both names from the
  left-hand operand's annotation (AnnotationFtcRegister.java:313). So whenever the left operand
  declares a name, the result is 0 (`OpModes.Compare`).
- `getOpModeName` falls back to the simple name when the annotation name is empty
  (AnnotationFtcRegister.java:113-127). It returns the empty string for a class whose
  annotation name and simple name are both empty.

## Model

| member | source | states |
|---|---|---|
| JavaStrings.CompareTo | opmodelibrary/src/main/java/org/ftcteam/internal/AnnotationFtcRegister.java:322 | `compareTo` is 0 exactly when the two strings are equal |
| JavaStrings.CompareToSign | opmodelibrary/src/main/java/org/ftcteam/internal/AnnotationFtcRegister.java:322 | `compareTo` is negative exactly when the first string is lexicographically smaller, by an independent definition (a proper prefix, or a smaller character at the first difference) |
| JavaStrings.CompareToAntisymmetric | opmodelibrary/src/main/java/org/ftcteam/internal/AnnotationFtcRegister.java:322 | swapping the operands negates `compareTo` |
| JavaStrings.CompareToTransitive | opmodelibrary/src/main/java/org/ftcteam/internal/AnnotationFtcRegister.java:296-304 | "less than" under `compareTo` is transitive, so the TreeMap key order is a strict order |
| JavaStrings.Contains | opmodelibrary/src/main/java/org/ftcteam/internal/AnnotationFtcRegister.java:280 | `contains` holds exactly when the fragment occurs at some position, not only at the start |
| JavaStrings.IndexOf | opmodelibrary/src/main/java/org/ftcteam/internal/AnnotationFtcRegister.java:193 | `indexOf` is -1 exactly when the character is absent; otherwise it is the first position holding it |
| JavaStrings.IntToString | opmodelibrary/src/main/java/org/ftcteam/internal/AnnotationFtcRegister.java:257 | `Integer.toString` of a non-negative counter is a non-empty string of decimal digits |
| JavaStrings.ParseIntToString | opmodelibrary/src/main/java/org/ftcteam/internal/AnnotationFtcRegister.java:257 | reading the digits back gives the counter again |
| JavaStrings.IntToStringInjective | opmodelibrary/src/main/java/org/ftcteam/internal/AnnotationFtcRegister.java:254-257 | different counter values give different keys |
| OpModes.OpModeName | opmodelibrary/src/main/java/org/ftcteam/internal/AnnotationFtcRegister.java:113-127 | the TeleOp name when `@TeleOpMode` is present, else the Autonomous name, else the simple name; an empty annotation name falls back to the simple name; the result is empty only if the simple name is |
| OpModes.Compare | opmodelibrary/src/main/java/org/ftcteam/internal/AnnotationFtcRegister.java:309-348 | two TeleOp modes compare as 0 when the left one declares a name, and by the left default name against the right simple name otherwise; Autonomous-only vs TeleOp is 1 and the reverse is -1; two Autonomous-only modes compare by their resolved names; an untagged operand gives -1 |
| OpModes.OpModeManager.Register | opmodelibrary/src/main/java/org/ftcteam/internal/AnnotationFtcRegister.java:101 | each `register(name, class)` call is appended to the registrar's call log |
| DenyList.DenyEntry | opmodelibrary/src/main/java/org/ftcteam/internal/AnnotationFtcRegister.java:191-195 | the entry a failed load adds: the identifier itself when it has no '$'; its first `indexOf('$') - 1` characters otherwise; none (the substring call throws) exactly when '$' is the first character |
| DenyList.ScanMonotone | opmodelibrary/src/main/java/org/ftcteam/internal/AnnotationFtcRegister.java:184-198 | over a longer prefix of the identifiers, the no-check list and the loaded classes only grow, and a pass that has thrown stays as it was |
| DenyList.ScanGrowsDenyList | opmodelibrary/src/main/java/org/ftcteam/internal/AnnotationFtcRegister.java:195 | a pass never removes an entry from the list it started with |
| DenyList.FailureBlocksLater | opmodelibrary/src/main/java/org/ftcteam/internal/AnnotationFtcRegister.java:188-195 | after an identifier fails to load, a later identifier containing its entry is skipped and changes nothing |
| DenyList.DollarAtOneBlocksRest | opmodelibrary/src/main/java/org/ftcteam/internal/AnnotationFtcRegister.java:192-195 | a failed identifier with '$' as its second character adds the empty entry, and every identifier after it is skipped |
| DenyList.InitiallyDeniedNeverLoaded | opmodelibrary/src/main/java/org/ftcteam/internal/AnnotationFtcRegister.java:184-187 | an identifier denied by the starting list is never loaded, wherever it stands |
| DenyList.ScanLoadsOnlyListed | opmodelibrary/src/main/java/org/ftcteam/internal/AnnotationFtcRegister.java:184-198 | every loaded class comes from a listed identifier that the starting list does not deny |
| DenyList.SeedDeniesContainedName | opmodelibrary/src/main/java/org/ftcteam/internal/AnnotationFtcRegister.java:277-285 | the test is containment anywhere: "org.team.com.google.Helper" is skipped by the "com.google" entry |
| Grouping.GetNextAvailableIndex | opmodelibrary/src/main/java/org/ftcteam/internal/AnnotationFtcRegister.java:252-268 | an empty key increments the counter and puts a singleton bucket under the new counter's decimal string; a non-empty key appends to its bucket or creates one; the counter is then unchanged; no other key changes |
| Grouping.Insertions | opmodelibrary/src/main/java/org/ftcteam/internal/AnnotationFtcRegister.java:231-243 | a disabled or untagged class is filed nowhere; a class with one tag is filed once, under that tag's pairing key; a class with both tags is filed under its TeleOp pairing key and then under its Autonomous pairing key |
| Grouping.InsertionsOfHas | opmodelibrary/src/main/java/org/ftcteam/internal/AnnotationFtcRegister.java:231-243 | every filing of a class in the scanned list is among the filings of the whole `findOpModes` loop |
| Grouping.InsertedIsFiled | opmodelibrary/src/main/java/org/ftcteam/internal/AnnotationFtcRegister.java:251-267 | when no declared pairing key is all digits, every op mode filed by `getNextAvailableIndex` ends up in some bucket of the final table; no later `put` loses it |
| Grouping.KeyedWithHas | opmodelibrary/src/main/java/org/ftcteam/internal/AnnotationFtcRegister.java:251-267 | an op mode filed under a key is among the filings that bucket collects |
| Grouping.InsertAllMembers | opmodelibrary/src/main/java/org/ftcteam/internal/AnnotationFtcRegister.java:229-245 | after grouping, the counter equals the number of empty-key insertions, and every bucket is non-empty and holds only inserted classes |
| Grouping.DeclaredKeyBucket | opmodelibrary/src/main/java/org/ftcteam/internal/AnnotationFtcRegister.java:258-266 | a declared key that is not all digits has a bucket exactly when some class was filed under it, and that bucket lists those classes in filing order |
| Grouping.SyntheticKeyBuckets | opmodelibrary/src/main/java/org/ftcteam/internal/AnnotationFtcRegister.java:253-257 | when no declared key is all digits, the k-th class filed with an empty key sits alone in the bucket with key `Integer.toString(k)` |
| Grouping.InsertionsOfMembers | opmodelibrary/src/main/java/org/ftcteam/internal/AnnotationFtcRegister.java:231-243 | only enabled, tagged classes from the input are ever filed |
| Grouping.FindOpModesMembers | opmodelibrary/src/main/java/org/ftcteam/internal/AnnotationFtcRegister.java:224-246 | `findOpModes` gives non-empty buckets of enabled, tagged classes from the input |
| OpModeTreeMap.Put | opmodelibrary/src/main/java/org/ftcteam/internal/AnnotationFtcRegister.java:301 | `TreeMap.put` keeps the keys ascending, adds the key, maps it to the new value, replaces an old value, and leaves every other key's value alone |
| OpModeTreeMap.AscendingStrict | opmodelibrary/src/main/java/org/ftcteam/internal/AnnotationFtcRegister.java:296-304 | in the TreeMap any earlier key is below any later one, not only adjacent keys |
| OpModeTreeMap.FlattenMembers | opmodelibrary/src/main/java/org/ftcteam/internal/AnnotationFtcRegister.java:73-85 | an op mode is in the flattened map exactly when it belongs to some entry of the map |
| OpModeTreeMap.GetFound | opmodelibrary/src/main/java/org/ftcteam/internal/AnnotationFtcRegister.java:301 | a successful `get` returns the bucket of an entry stored under that very name |
| NameBudget.RegisterAllInOrder | opmodelibrary/src/main/java/org/ftcteam/internal/AnnotationFtcRegister.java:99-102 | within budget there is exactly one `register` call per op mode, in list order, under its resolved name |
| NameBudget.RegisteredNamesOfRegisterAll | opmodelibrary/src/main/java/org/ftcteam/internal/AnnotationFtcRegister.java:99-102 | the names the registrar receives are the resolved names of the op modes, in order |
| NameBudget.RegisteredTableFits | opmodelibrary/src/main/java/org/ftcteam/internal/AnnotationFtcRegister.java:87-103 | the calls are either the placeholder alone or one call per op mode with a name table of at most 255 bytes; a table of exactly 255 bytes is accepted |
| NameBudget.UniformTableLength | opmodelibrary/src/main/java/org/ftcteam/internal/AnnotationFtcRegister.java:88-93 | n names of w bytes each make a table of n * (w + 1) bytes |
| NameBudget.NamesOfInOrder | opmodelibrary/src/main/java/org/ftcteam/internal/AnnotationFtcRegister.java:88-91 | the name table lists each op mode's resolved name, in order |
| NameBudget.SixtyFiveByteNames | opmodelibrary/src/main/java/org/ftcteam/internal/AnnotationFtcRegister.java:93-97 | sixty op modes with five-byte names (360 bytes) lead to the placeholder alone |
| AnnotationFtcRegister.AnnotationFtcRegister.constructor | opmodelibrary/src/main/java/org/ftcteam/internal/AnnotationFtcRegister.java:55-57 | a new pass starts with an empty no-check list |
| AnnotationFtcRegister.AnnotationFtcRegister.BuildNoCheckList | opmodelibrary/src/main/java/org/ftcteam/internal/AnnotationFtcRegister.java:132-135 | appends "com.google" and then "io.netty" |
| AnnotationFtcRegister.AnnotationFtcRegister.ShouldAdd | opmodelibrary/src/main/java/org/ftcteam/internal/AnnotationFtcRegister.java:277-285 | true exactly when no entry of the no-check list occurs inside the identifier |
| AnnotationFtcRegister.AnnotationFtcRegister.BuildClassList | opmodelibrary/src/main/java/org/ftcteam/internal/AnnotationFtcRegister.java:166-201 | the loaded classes, the grown no-check list and the thrown flag are those of the scan specification, started from the current list |
| AnnotationFtcRegister.AnnotationFtcRegister.FindOpModes | opmodelibrary/src/main/java/org/ftcteam/internal/AnnotationFtcRegister.java:224-246 | the table is the one obtained by filing every class's insertions in order, starting from an empty table and counter 0 |
| AnnotationFtcRegister.AnnotationFtcRegister.SortOpModeMap | opmodelibrary/src/main/java/org/ftcteam/internal/AnnotationFtcRegister.java:208-215 | the keys stay the same, every bucket becomes a permutation of itself, and a bucket of two comes out as `Collections.sort` leaves it |
| AnnotationFtcRegister.SortBucket | opmodelibrary/src/main/java/org/ftcteam/internal/AnnotationFtcRegister.java:213 | the sorted bucket is a permutation of the original; a bucket already in comparator order is unchanged; a bucket of two is swapped exactly when `compare(second, first) < 0` |
| AnnotationFtcRegister.SortedPair | opmodelibrary/src/main/java/org/ftcteam/internal/AnnotationFtcRegister.java:213 | a sorted pair is a permutation of the pair, left as it is when the comparator does not put the second before the first |
| AnnotationFtcRegister.PairedTeleOpFirst | opmodelibrary/src/main/java/org/ftcteam/internal/AnnotationFtcRegister.java:213 | in a bucket pairing a TeleOp op mode with an Autonomous-only one, the TeleOp op mode is sorted first, whichever was filed first |
| AnnotationFtcRegister.Sink | opmodelibrary/src/main/java/org/ftcteam/internal/AnnotationFtcRegister.java:213 | one insertion pass is a permutation; an element not below its left neighbour stays put; in a bucket of two, the second element moves to the front exactly when it compares below the first |
| AnnotationFtcRegister.AnnotationFtcRegister.TreeMapify | opmodelibrary/src/main/java/org/ftcteam/internal/AnnotationFtcRegister.java:293-305 | the map is ascending; its keys are the resolved names of the buckets' first members; every entry is a bucket keyed by its first member's name; with distinct first names, each bucket can be looked up under its first member's name |
| AnnotationFtcRegister.FlattenTreeMap | opmodelibrary/src/main/java/org/ftcteam/internal/AnnotationFtcRegister.java:73-85 | the op modes to register are the map's buckets concatenated in ascending key order |
| AnnotationFtcRegister.NameTableLength | opmodelibrary/src/main/java/org/ftcteam/internal/AnnotationFtcRegister.java:87-93 | the byte length of the name table: the sum over the names of their encoded length plus one separator byte |
| AnnotationFtcRegister.RegisterWithinBudget | opmodelibrary/src/main/java/org/ftcteam/internal/AnnotationFtcRegister.java:93-103 | the registrar receives the placeholder alone when the table exceeds 255 bytes, and every op mode in order otherwise |
| AnnotationFtcRegister.FlattenedProvenance | opmodelibrary/src/main/java/org/ftcteam/internal/AnnotationFtcRegister.java:68-85 | every entry of the ordered map is a permutation of a `findOpModes` bucket, and every op mode to register is an enabled, tagged class that was loaded |
| AnnotationFtcRegister.LoadOpModes | opmodelibrary/src/main/java/org/ftcteam/internal/AnnotationFtcRegister.java:64-104 | a pass whose scan throws registers nothing; otherwise the sorted table has the grouping's keys with each bucket a non-empty permutation of the grouping's bucket (a bucket of two sorted as `Collections.sort` leaves it), the ordered map is ascending and holds exactly the sorted buckets' first-member names, each entry being a sorted bucket named by its first member (and, with distinct first names, every sorted bucket is found under its name), and the calls appended to the registrar are the budget-checked registrations of that map flattened, all of them loaded, enabled, tagged classes |
| AnnotationFtcRegister.PassRegistersEveryOpMode | opmodelibrary/src/main/java/org/ftcteam/internal/AnnotationFtcRegister.java:64-104 | when no two sorted buckets start with op modes of the same name and no declared pairing key is all digits, every loaded, enabled, tagged class is among the op modes to register, and, when the name table fits in 255 bytes, the registrar receives it under its resolved name |
| AnnotationFtcRegister.FiledUnder | opmodelibrary/src/main/java/org/ftcteam/internal/AnnotationFtcRegister.java:231-267 | with no all-digit declared key, each enabled, tagged class of the scan lies in some bucket of the `findOpModes` table |
| AnnotationFtcRegister.BucketReachesTreeMap | opmodelibrary/src/main/java/org/ftcteam/internal/AnnotationFtcRegister.java:71-85 | with distinct first names, a member of any grouping bucket is among the flattened TreeMap's op modes after sorting and re-keying |
| AnnotationFtcRegister.RegisteredAll | opmodelibrary/src/main/java/org/ftcteam/internal/AnnotationFtcRegister.java:99-102 | the per-op-mode `register` loop passes every op mode to the registrar under its resolved name |
| Bindings.Bindings.constructor | opmodelibrary/src/main/java/org/ftcteam/internal/Bindings.java:11-13 | the layout id starts at 0, the manager at null and the map empty |
| Bindings.Bindings.SetRelativeLayout | opmodelibrary/src/main/java/org/ftcteam/internal/Bindings.java:15-17 | stores the layout id and changes nothing else |
| Bindings.Bindings.RelativeLayout | opmodelibrary/src/main/java/org/ftcteam/internal/Bindings.java:28-30 | returns the stored layout id |
| Bindings.Bindings.Register | opmodelibrary/src/main/java/org/ftcteam/internal/Bindings.java:19-25 | an empty key throws `IllegalArgumentException` and leaves the map unchanged; any other key is mapped to the value, replacing an earlier one, with no other key changed |
| Bindings.Bindings.Get | opmodelibrary/src/main/java/org/ftcteam/internal/Bindings.java:32-38 | a present key yields its value; an absent key throws `IllegalArgumentException` |
| Bindings.Bindings.IsPresent | opmodelibrary/src/main/java/org/ftcteam/internal/Bindings.java:48-50 | true exactly when the key has been registered |
| Bindings.Bindings.SetOpModeManager | opmodelibrary/src/main/java/org/ftcteam/internal/Bindings.java:52-54 | stores the manager and changes nothing else |
| Bindings.Bindings.OpModeManager | opmodelibrary/src/main/java/org/ftcteam/internal/Bindings.java:57-59 | returns the stored manager |
| Bindings.RegisterThenGet | opmodelibrary/src/main/java/org/ftcteam/internal/Bindings.java:15-59 | a value registered under a non-empty key is what `get` returns, and `RelativeLayout()` and `OpModeManager()` return what was stored |
| FtcSimpleBootstrap.PairStep | FtcRobotController/src/main/java/org/ftcteam/internal/FtcSimpleBootstrap.java:19-38 | one loop iteration: a String in key position becomes the pending key; a non-String there throws in debug mode and changes nothing otherwise; an element in value position is registered under the pending key, and an empty pending key throws; a thrown state stays thrown |
| FtcSimpleBootstrap.BindLookup | opmodelibrary/src/main/java/org/ftcteam/internal/Bindings.java:19-25 | after a run of registrations, a key maps to the last value registered under it, and an unregistered key keeps its earlier value or absence |
| FtcSimpleBootstrap.WellPairedRegistersPairs | FtcRobotController/src/main/java/org/ftcteam/internal/FtcSimpleBootstrap.java:16-38 | alternating non-empty String keys and non-String values register exactly those pairs, in order, in either mode, without throwing |
| FtcSimpleBootstrap.TrailingKeyRegistersNothing | FtcRobotController/src/main/java/org/ftcteam/internal/FtcSimpleBootstrap.java:33-37 | a final key without a value registers nothing |
| FtcSimpleBootstrap.ThrownIsFinal | FtcRobotController/src/main/java/org/ftcteam/internal/FtcSimpleBootstrap.java:19-38 | once an exception has ended the loop, the remaining arguments change nothing |
| FtcSimpleBootstrap.LenientThrowsOnlyOnEmptyKey | FtcRobotController/src/main/java/org/ftcteam/internal/FtcSimpleBootstrap.java:20-37 | in lenient mode, arguments without an empty String never throw |
| FtcSimpleBootstrap.EmptyKeyThrows | FtcRobotController/src/main/java/org/ftcteam/internal/FtcSimpleBootstrap.java:33-35 | an empty String in key position followed by a value throws in either mode |
| FtcSimpleBootstrap.StrictRejectsLeadingValue | FtcRobotController/src/main/java/org/ftcteam/internal/FtcSimpleBootstrap.java:20-25 | in debug mode, arguments that start with a non-String throw |
| FtcSimpleBootstrap.LenientSkipsStray | FtcRobotController/src/main/java/org/ftcteam/internal/FtcSimpleBootstrap.java:26-29 | in lenient mode, a non-String in key position leaves the state as if it were absent |
| FtcSimpleBootstrap.StringValueKeepsKey | FtcRobotController/src/main/java/org/ftcteam/internal/FtcSimpleBootstrap.java:20-37 | a String in value position is registered under the pending key, and the key stays pending, so the next element is registered under the same key |
| FtcSimpleBootstrap.StrictAgreesWithLenient | FtcRobotController/src/main/java/org/ftcteam/internal/FtcSimpleBootstrap.java:24-30 | whenever debug mode gets through the arguments, lenient mode does exactly the same |
| FtcSimpleBootstrap.PairArguments | FtcRobotController/src/main/java/org/ftcteam/internal/FtcSimpleBootstrap.java:16-39 | the argument loop throws exactly when the pairing specification does, and the bindings map ends up with the specification's registrations put in order; the layout id and manager slots are untouched |
| FtcSimpleBootstrap.Configure | FtcRobotController/src/main/java/org/ftcteam/internal/FtcSimpleBootstrap.java:11-42 | stores the layout id and the manager; the bindings map receives the pairing loop's registrations; a thrown exception skips discovery and leaves the registrar untouched; otherwise one discovery pass runs, with everything `LoadOpModes` states about the sorted table, the TreeMap and the calls |
| FtcSimpleBootstrap.ConfigureLenient | FtcRobotController/src/main/java/org/ftcteam/internal/FtcSimpleBootstrap.java:44-46 | the three-argument overload is `configure` with debug off |

## Left out

- Reflection, the dex file and the class loader are left out. The identifier list and
  `Class.forName` are parameters (`klazzes`, `loadable`). `getApplicationContext`, opening the
  `DexFile` (and the `NullPointerException` thrown when that fails) are not modelled.
- Logging (`Log`, `RobotLog.setGlobalErrorMsg`) has no effect on the model. This includes the
  non-public-class diagnostic inside the flatten loop and the over-budget message.
- The `TooManyOpModes` placeholder's behaviour (its telemetry in `init`/`loop`) is left out;
  it appears only as the value `TooManyOpModes` handed to the registrar.
- `Charset.defaultCharset()` is the parameter `encodedLen`. The model assumes that the encoded
  length of the joined table is the sum of the names' lengths plus one byte per separator,
  which holds for the usual byte-oriented charsets.
- JavaStrings.CompareTo: Java compares UTF-16 code units; the model compares Dafny characters.
  The two agree for names within the Basic Multilingual Plane.
- Grouping.GetNextAvailableIndex: the counter is an unbounded natural. Java's 32-bit `int` could
  wrap only after 2^31 op modes.
- Grouping.SyntheticKeyBuckets: a declared pairing key that is all digits (such as "1") can
  collide with a counter key. The lemma therefore assumes that no declared key is all digits;
  for such a collision, the model computes the same overwrite as the code, but no lemma
  describes it.
- Grouping.InsertedIsFiled: assumes no declared pairing key is all digits, for the same reason
  as SyntheticKeyBuckets.
- AnnotationFtcRegister.PassRegistersEveryOpMode: the completeness guarantee is stated only
  when the sorted buckets' first members have distinct names and no declared pairing key is all
  digits. Otherwise the code itself loses op modes: `TreeMap.put` under a name already present
  replaces the earlier bucket (AnnotationFtcRegister.java:301), and a counter key
  `Integer.toString(i)` equal to a declared key replaces that bucket
  (AnnotationFtcRegister.java:257). The model computes both losses as the code does; which
  bucket survives a name clash depends on HashMap order and is not pinned down.
- AnnotationFtcRegister.SortBucket: `Collections.sort` (TimSort) is modelled as a stable
  insertion sort with the same comparator. Because the comparator is not a consistent order,
  the two can order three or more elements differently. TimSort may also throw "Comparison
  method violates its general contract" on large buckets. The model proves only a permutation,
  the identity on input already in order, and exact agreement for buckets of two.
- HashMap iteration order: `SortOpModeMap` and `TreeMapify` take the keys in an arbitrary
  order. Only the key-order-independent result is stated; when two buckets' first members share
  a name, which one the TreeMap keeps is not pinned down.
- `Bindings.get(T type, String key)`, the unchecked-cast overload, is not modelled. Dafny has no
  counterpart to an erased generic cast.
- Bindings' static fields are modelled as the fields of one `Bindings` object passed to
  `Configure`. `RelativeLayout()` and `OpModeManager()` are plain reads of those fields.
- The `@NonNull` / `@Nullable` annotations are not enforced. A null `objects` array is
  `None`, and a null element is `JNull`; neither is a String.
