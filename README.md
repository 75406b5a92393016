# badlogvis input and grouping core, in Dafny

badlogvis turns a log file into an HTML report. The log file is a CSV table whose first line is either a JSON header or a bare row of column names. This project models the part of the program that goes from the header to the report's structure:

- **Directive parsing.** The directive tokens a JSON topic may carry (`hide`, `area`, `xaxis`, `differentiate`) are parsed into directives, and the directives are collected per topic.
- **Names.** A name such as `drive/left/speed` is split into a folder part and a base.
- **Records.** Topic and value records are built from the JSON header or from the bare CSV header row, and duplicate declarations are rejected.
- **The x-axis.** The shared x-axis is chosen from the topic marked `xaxis`, or is a synthetic "Index" axis when none is marked. The fallback that numbers a channel's samples is also modelled.
- **Folders.** Graphs, values and logs are grouped into folders by the folder part of their names, and the folders are sorted by lower-cased name.

Modules:

- `Outcome` holds `Option` and `Result`.
- `Seqs` holds duplicate-free sequences, the first index of an element, and removal of repeats.
- `Util` holds the name splitter, the sample-numbering fallback, the unitless sentinel `"ul"` and the fatal error outcomes.
- `Attributes` holds directive parsing.
- `Input` holds the header records.
- `XAxes` holds the x-axis selection.
- `Graphs` holds the chart record.
- `Order` holds ASCII lower-casing and lexicographic order.
- `Folders` holds grouping and sorting.

The program's fatal `error!` (print a message and exit) becomes an `Err` outcome carrying a `Failure` that names the cause. Its `warning!` (print a message and carry on) has no effect in the model. Every loop of the modelled functions becomes a method with loop invariants. Where a specification function exists for it, the method is proved equal to that function. Otherwise its postconditions state the result directly. Iterator adaptors (`find`, `filter().count()`) become functions or quantified expressions. The properties the program relies on are stated as lemmas. The three labelled filing loops of `gen_folders` differ only in the kind of item they file. They are modelled as one loop method, `Folders.FileAll`, run once per kind.

## Model

| member | source | states |
|---|---|---|
| Attributes.Parse | src/attribute.rs:10-25 | On success the token is exactly the spelling of the returned directive. On failure no directive is spelled by the token. |
| Attributes.ParseToken | src/attribute.rs:11-22 | Each directive's spelling parses back to that directive. |
| Attributes.ParseInjective | src/attribute.rs:10-25 | Two accepted tokens that give the same directive are the same token. |
| Attributes.ParseIsExact | src/attribute.rs:11-24 | Matching is exact: different case, surrounding spaces and the empty token are all rejected. |
| Util.Split | src/util.rs:22 | Splitting at `/` yields one more piece than the name has separators. |
| Util.SeparatorsNone | src/util.rs:22-28 | The separator count is zero exactly when the name contains no `/`. |
| Util.JoinSplit | src/util.rs:22-31 | Joining the split pieces with `/` gives back the name. |
| Util.SplitPieces | src/util.rs:22 | No split piece contains `/`. |
| Util.JoinSnoc | src/util.rs:30-31 | Joining pieces with one more piece appended puts a `/` before it. |
| Util.Join | src/util.rs:31 | Joining pieces with `/` between neighbours; the first piece begins the result. |
| Util.SplitWhole | src/util.rs:22-28 | A name without `/` splits into itself alone. |
| Util.SplitFront | src/util.rs:22 | A `/`-free piece followed by `/` splits off as the first piece. |
| Util.SplitJoin | src/util.rs:22-31 | Splitting a join of `/`-free pieces gives the pieces back, the converse round trip of `Util.JoinSplit`. |
| Util.SplitName | src/util.rs:21-34 | Without a `/` the folder is empty and the base is the whole name. Otherwise the name is folder + `/` + base, and the base has no `/` (the split is at the last `/`). |
| Util.SplitsAsUnique | src/util.rs:21-34 | At most one (folder, base) pair satisfies that description, so it characterises the split completely. |
| Util.FakeXAxis | src/util.rs:36-44 | One point per sample, in order. Point `i` pairs the row number `i` with sample `i`. |
| Seqs.FirstIndex | src/folder.rs:19-24 | The result is the first position holding the element. |
| Seqs.DistinctSpec | src/input.rs:110-118 | Dropping repeats leaves no duplicates and the same elements, ordered by first occurrence. |
| Input.ValueFrom | src/input.rs:60-70 | The name and value are copied, and the name is split as described for `Util.SplitName`. |
| Input.ParsedMembers | src/input.rs:103-109 | A directive survives the skip-unparsable step exactly when some token spells it. |
| Input.GetAttrs | src/input.rs:101-121 | The result is the parsed directives with repeats dropped, in token order. |
| Input.AttrsSpec | src/input.rs:101-121 | The collected directives have no duplicates. They are exactly those some token spells. They are ordered by where each is first spelled. |
| Input.FirstSpellingOrder | src/input.rs:103-118 | Two directives are parsed in the same relative order as their first spellings among the tokens. |
| Input.TopicFrom | src/input.rs:72-92 | The name is copied and split. An empty unit becomes `"ul"`, any other unit is kept. The directives are collected as `GetAttrs` does. No samples are recorded. |
| Input.FindByName | src/input.rs:127 | The index of the first collected value with the name, or none when no value has it. |
| Input.ConflictingValue | src/input.rs:127-129 | A collected value with the same name and a different value exhibits two conflicting declarations. |
| Input.RepeatedValue | src/input.rs:127-132 | Skipping an exact repeat keeps the collected list equal to the declarations with repeats dropped, and keeps names determining values. |
| Input.NewValue | src/input.rs:127-135 | Appending a value under an unseen name keeps the collected list equal to the declarations with repeats dropped. |
| Input.GetValues | src/input.rs:124-138 | It fails exactly when two declarations share a name but not a value, naming the later declaration of the first conflict in declaration order: all declarations before it agree. On success there is one record per distinct declaration, in first-declaration order, with distinct names. |
| Input.BuiltSnoc | src/input.rs:142-147 | Appending the next topic record keeps every earlier record equal to the record built from its declaration. |
| Input.RepeatedTopic | src/input.rs:143-145 | Two declarations under one name break name uniqueness, and an earlier declaration carries the later one's name. |
| Input.GetTopics | src/input.rs:140-149 | It fails exactly when two topics share a name. It names the first declaration whose name was already taken: all names before it are distinct. On success record `k` is built from declaration `k`. |
| Input.GetTopicsFromCsv | src/input.rs:152-176 | It fails exactly when a column name repeats. It names the first column whose name was already taken: all columns before it are distinct. On success column `k` gives a topic with that name split, unit `"ul"`, no directives and no samples. |
| XAxes.FindAxis | src/xaxis.rs:13-25 | It fails exactly when two topics are marked `xaxis`. With none marked it yields no index. Otherwise it yields the index of the only marked topic. |
| XAxes.AxisFor | src/xaxis.rs:27-43 | A marked topic gives its unit, its samples and the label `base (unit)`. Without one the axis is unitless, labelled "Index", with no samples. |
| XAxes.XAxisFrom | src/xaxis.rs:11-45 | It fails exactly when two topics are marked `xaxis`. A marked topic determines the unit, samples and label. With none marked the result is the "Index" axis. |
| Order.LowerChar | src/folder.rs:65 | ASCII lower-casing of one character. Each of `A`..`Z` becomes the letter at the same place in `a`..`z`, and every other character is unchanged. |
| Order.Lower | src/folder.rs:64-66 | Lower-casing keeps the length. At each position it turns an upper-case ASCII letter into its lower-case letter and leaves every other character alone. |
| Order.LowerCharSame | src/folder.rs:65 | Two characters lower-case alike exactly when they are equal or the same ASCII letter in the two cases. |
| Order.SameKey | src/folder.rs:64-66 | Two names have the same sort key exactly when they have the same length and differ at most in the ASCII case of their letters. |
| Order.LexLe | src/folder.rs:66 | The lexicographic order of strings; a prefix sorts before the longer string. |
| Order.LexLeRefl | src/folder.rs:63-67 | The name order is reflexive. |
| Order.LexLeTotal | src/folder.rs:63-67 | Any two names are comparable. |
| Order.LexLeTrans | src/folder.rs:63-67 | The name order is transitive. |
| Order.LexLeAntisym | src/folder.rs:63-67 | Names ordered both ways are equal. `Folders.SortedHeads` relies on it. |
| Folders.PlaceItem | src/folder.rs:19-30 | Scanning for the folder named by the item appends the item to the first match, or adds a new folder holding just the item at the end. |
| Folders.Gather | src/folder.rs:18-61 | The reference folder for a name carries that name. |
| Folders.TotalAppend | src/folder.rs:25-30 | Adding a folder adds its items to the total. |
| Folders.TotalUpdate | src/folder.rs:19-23 | Replacing a folder changes the total by the difference in sizes. |
| Folders.GatherAbsent | src/folder.rs:18-61 | A name no item carries gathers an empty folder. |
| Folders.GatherPresent | src/folder.rs:18-61 | A name some item carries gathers a non-empty folder. |
| Folders.PlaceStep | src/folder.rs:18-31 | Filing one more item keeps the invariant: one folder per name, in order of first occurrence, each holding exactly its items in input order, none lost. |
| Folders.PlaceAllSpec | src/folder.rs:18-61 | Filing any sequence of items from nothing establishes that invariant. |
| Folders.PlaceAllAppend | src/folder.rs:18-61 | Filing one sequence of items and then another from nothing is the same as filing their concatenation. |
| Folders.FileAll | src/folder.rs:18-31 | Filing each item in turn with the folder scan yields the reference filing `PlaceFrom` of the items into the given folders. |
| Folders.GatherGraphs | src/folder.rs:18-31 | The graphs gathered for a name are the graphs of that name, in input order. |
| Folders.GatherValues | src/folder.rs:33-46 | Values filed after the graphs land in the value table of their folder, in input order. |
| Folders.GatherLogs | src/folder.rs:48-61 | Logs filed after graphs and values land in the log list of their folder, in input order. |
| Folders.GatherItems | src/folder.rs:18-61 | The folder gathered for a name holds exactly the values, logs and graphs of that name. |
| Folders.InsertPerm | src/folder.rs:63-67 | Inserting a folder adds exactly that folder and its items. |
| Folders.InsertSorted | src/folder.rs:63-67 | Inserting into a sorted list keeps it sorted by lower-cased name. |
| Folders.InsertStable | src/folder.rs:63-67 | Inserting puts the new folder before the existing folders of its key. |
| Folders.SortPerm | src/folder.rs:63-67 | The sort returns a permutation of its input, with the same total. |
| Folders.SortSorted | src/folder.rs:63-67 | The sort returns folders ordered by lower-cased name. |
| Folders.SortStable | src/folder.rs:63-67 | The sort is stable: folders with the same lower-cased name keep their relative order. |
| Folders.SortNames | src/folder.rs:63-67 | Sorting folders with distinct names keeps the names distinct. |
| Folders.InsertNames | src/folder.rs:63-67 | Inserting a folder with a fresh name keeps the names distinct. |
| Folders.Insert | src/folder.rs:63-67 | Inserting into a list adds exactly one folder. |
| Folders.SortFolders | src/folder.rs:63-67 | The stable sort by lower-cased name keeps the length. Its permutation, order and stability are proved in `Folders.SortPerm`, `Folders.SortSorted` and `Folders.SortStable`. |
| Folders.SortMembers | src/folder.rs:63-67 | Sorting keeps exactly the same folders. |
| Folders.WithKeyMember | src/folder.rs:63-67 | A folder is in a list exactly when it is among the list's folders of its own key. |
| Folders.WithKeyFront | src/folder.rs:63-67 | A non-empty list holds at least one folder with its first folder's key. |
| Folders.SortedFirst | src/folder.rs:63-67 | A sorted list starts with a folder of the least key it holds. |
| Folders.SortedHeads | src/folder.rs:63-67 | Two sorted lists that hold the same folders in the same order for every key start with the same folder. |
| Folders.SortedUnique | src/folder.rs:63-67 | Two sorted lists that hold the same folders in the same order for every key are equal. |
| Folders.SortUnique | src/folder.rs:63-67 | Any list sorted by lower-cased name that keeps the order of each key's folders equals the insertion sort's result. Every stable sort by this comparison therefore agrees with the model. |
| Folders.GenFolders | src/folder.rs:15-70 | The result is the filing of all graphs, then all values, then all logs (one `FileAll` pass per kind), sorted by lower-cased folder name. |
| Folders.GroupingNames | src/folder.rs:16-61 | Before the sort the folder names are the distinct input folder names, in first-occurrence order, so no two folders share a name. |
| Folders.GroupingContents | src/folder.rs:16-61 | Before the sort each folder holds exactly its graphs, values and logs, each kind in input order, and is non-empty. Together they hold every input once. |
| Folders.FoldersSpec | src/folder.rs:15-70 | The returned folders are sorted by lower-cased name and have distinct names. They hold every input once. Folders whose names differ only in ASCII case share a key (`Order.SameKey`) and stay in creation order. |
| Folders.FolderContents | src/folder.rs:15-70 | Each returned folder holds exactly the graphs, values and logs of its name, each in input order, and is never empty. |
| Folders.FolderNames | src/folder.rs:15-70 | The returned folder names are exactly the folder names that occur among the inputs. |

## Left out

- Console output: the text of `error!` and `warning!`, and their colouring, are not modelled. `error!` is modelled as an `Err` outcome rather than a process exit. `warning!` has no effect. This covers the warnings for an unparsable directive, a repeated directive, an exact duplicate value and a CSV column name with exterior whitespace.
- `Util.FakeXAxis`: the row number is kept as an unbounded integer. The conversion to a 64-bit float is not modelled.
- Samples: 64-bit floats are carried as uninterpreted 64-bit patterns. No arithmetic is done on them in the modelled code.
- Reading the file, parsing JSON and CSV, and filling each topic's samples from the CSV rows (`parse_input`) are not modelled. Neither are HTML generation (`gen_html`, the table and log-table generators), chart generation in src/graph.rs, the command line in src/main.rs and the attached-file handling in src/attached_file.rs. None of these belong to the modelled core.
- `Log` is not defined in src/input.rs or any other file of the program that this model covers. It is reconstructed from its uses in src/folder.rs: a name, its folder and base halves, and the lines shown in the report.
- `Folders.SortFolders`: the library's stable `sort_by` is modelled by a stable insertion sort. `Folders.SortUnique` proves that every stable sort with this comparison returns the same list. The library's algorithm itself is not modelled.
- `Order.LexLe`: names are compared character by character on code points after ASCII lower-casing. The program compares UTF-8 bytes, which orders strings the same way, but the byte encoding is not modelled.
- Ownership and moves: the program moves each graph, value and log into its folder. The model copies values instead.
