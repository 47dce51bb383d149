# JAR checker core, modelled in Dafny

This project models four pieces of a JAR-checker's model-building and analysis code, and proves properties about each:

- **Unwrapping a WAR** (`WarFileLoader.load`).
  - A missing file and a path that is not a regular file are rejected first.
  - Then every entry of the archive's ZIP stream is read. Directories are skipped. Each file entry under `WEB-INF/lib/` whose name ends in `.jar` is handed to the JAR loader. Entries under `WEB-INF/classes/` and all others add nothing.
  - The loaded JARs are returned stably sorted by file name, ignoring case.
- **Printing a field's modifiers** (`FieldDef`).
  - The field's access flags are those of section 4.5 (Table 4.5-A) of the Java Virtual Machine Specification, plus ASM's `ACC_DEPRECATED` pseudo-flag.
  - They become a canonical space-separated modifier string, a display name and `toString()`.
- **A classpath** (`Classpath`). It is an ordered copy of a list of JARs, with two indices:
  - a file-name map, in which the last JAR of a name wins;
  - a class-name multimap.
- **The "JAR Files" report section** (`JarFilesListAnalyzer`). It has one row per JAR in classpath order, plus a totals row whose numbers are sums over the JARs.

Files:

| file | module | contents |
|---|---|---|
| `wrappers.dfy` | `Wrappers` | `Option` and `Result` |
| `jar_model.dfy` | `JarModel` | `ClassDef` and `JarFile` values |
| `java_strings.dfy` | `JavaStrings` | the `java.lang.String` operations used: `startsWith`, `endsWith`, `String.join`, `String.valueOf`, `compareToIgnoreCase` |
| `jar_sort.dfy` | `JarSort` | the case-insensitive stable sort, specified as a function of the list and carried out in place on an array |
| `war_file_loader.dfy` | `WarFileLoaders` | the ZIP-entry model, the entry loop, and the properties of the filter |
| `access_flags.dfy` | `AccessFlags` | the flag constants, and tables of (flag, token) entries with the tokens they select |
| `field_def.dfy` | `FieldDefs` | `FieldDef` and its modifier string, display name and `toString()` |
| `classpath.dfy` | `Classpaths` | the `Classpath` class, its two indices and its lookups |
| `report.dfy` | `Reports` | `ReportTable` and `ReportSection` |
| `jar_files_list_analyzer.dfy` | `JarFilesListAnalyzers` | `buildTable` and `analyze` |

**How the Java constructs are modelled:**
- Code the model cannot see is passed in as function-typed parameters:
  - the JAR loader (`JarFileLoader.load`), where `None` stands for an `IOException`;
  - `FileUtils.getFilename`;
  - `FileUtils.formatFileSize`;
  - ASM's descriptor-to-type-name conversion.
- A Java `null` argument is an `Option` parameter, and a Java exception is a `Failure` result.
- Code that changes things step by step stays imperative:
  - the entry loop, the list sort and `getModifiers` are methods with loops or appends;
  - the constructor of `Classpath` fills its maps in nested loops;
  - `buildTable` accumulates its totals in a loop.
- Each method is proved equal to a specification function. The properties are proved as lemmas about that function.

## Model

| member | source | states |
|---|---|---|
| WarFileLoaders.WarFileLoader.constructor | src/main/java/org/jarhc/loader/WarFileLoader.java:36-38 | the loader keeps the JAR loader it is given |
| WarFileLoaders.WarFileLoader.Load | src/main/java/org/jarhc/loader/WarFileLoader.java:40-74 | a null file gives `IllegalArgument("file")`; a path that is not a regular file gives `FileNotFound(absolute path)`, before any entry is read; otherwise the result is `IOFailure` exactly when collecting the entries fails, and else the collected JARs sorted by `SortByName`, which are sorted, a permutation of the collected JARs, and keep their load order among names equal up to case |
| WarFileLoaders.CollectSpec | src/main/java/org/jarhc/loader/WarFileLoader.java:49-61 | the entry loop succeeds exactly when the stream reads without error and every qualifying entry loads; it then yields, in stream order, one JAR per qualifying entry, loaded from its base name and bytes |
| WarFileLoaders.CollectFailureSticks | src/main/java/org/jarhc/loader/WarFileLoader.java:46-67 | once an I/O error has occurred, the load fails whatever entries follow |
| WarFileLoaders.LibJars | src/main/java/org/jarhc/loader/WarFileLoader.java:53-57 | every entry selected for loading is a file entry under `WEB-INF/lib/` ending in `.jar` |
| WarFileLoaders.LibJarsConcat | src/main/java/org/jarhc/loader/WarFileLoader.java:49-67 | the selected entries of a stream split in two are those of the first part followed by those of the second, so stream order is kept |
| WarFileLoaders.LibJarsCount | src/main/java/org/jarhc/loader/WarFileLoader.java:57-61 | a qualifying entry is selected once for each time it occurs, and any other entry never |
| WarFileLoaders.LoadAll | src/main/java/org/jarhc/loader/WarFileLoader.java:58-61 | one JAR per selected entry, at the same position, each the loader's result for the entry's base name and bytes |
| WarFileLoaders.DirectoriesIgnored | src/main/java/org/jarhc/loader/WarFileLoader.java:53-54 | a directory entry changes nothing, whatever its name |
| WarFileLoaders.ClassesIgnored | src/main/java/org/jarhc/loader/WarFileLoader.java:62-65 | an entry under `WEB-INF/classes/` never qualifies and changes nothing |
| WarFileLoaders.LibJarAdded | src/main/java/org/jarhc/loader/WarFileLoader.java:57-61 | a qualifying entry adds exactly the JAR loaded from its base name and bytes, or makes the load fail when the loader fails |
| WarFileLoaders.NestedLibJarQualifies | src/main/java/org/jarhc/loader/WarFileLoader.java:57 | `WEB-INF/lib/x/y.jar` in a subdirectory qualifies too |
| WarFileLoaders.NoLibJarsNoJars | src/main/java/org/jarhc/loader/WarFileLoader.java:44-73 | a readable stream without qualifying entries yields the empty list, not an error |
| WarFileLoaders.NoLibJarsEmpty | src/main/java/org/jarhc/loader/WarFileLoader.java:44-73 | without qualifying entries nothing is selected |
| JarSort.SortInPlace | src/main/java/org/jarhc/loader/WarFileLoader.java:71 | the array ends up holding `SortByName` of its old contents |
| JarSort.InsertInPlace | src/main/java/org/jarhc/loader/WarFileLoader.java:71 | one step of the in-place sort moves the element at `i` into place in the sorted prefix and leaves the rest untouched |
| JarSort.SortByNameSorted | src/main/java/org/jarhc/loader/WarFileLoader.java:71 | the result is non-decreasing under `compareToIgnoreCase` |
| JarSort.SortByNamePermutation | src/main/java/org/jarhc/loader/WarFileLoader.java:71 | the result is a permutation of the input |
| JarSort.SortByNameStable | src/main/java/org/jarhc/loader/WarFileLoader.java:71 | for every key, the JARs of that key keep their input order |
| JarSort.SortByNameStableAll | src/main/java/org/jarhc/loader/WarFileLoader.java:71 | the result keeps the input order among all JARs of equal key |
| JarSort.StableSortUnique | src/main/java/org/jarhc/loader/WarFileLoader.java:71 | a list is sorted and keeps the input order among equal keys exactly when it is `SortByName` of the input, so any stable sort with this comparator gives the same list |
| JarSort.StableSortedIsSortByName | src/main/java/org/jarhc/loader/WarFileLoader.java:71 | a sorted list that keeps the input order among equal keys is `SortByName` of the input |
| JarSort.SortedKeyFiltersDetermine | src/main/java/org/jarhc/loader/WarFileLoader.java:71 | two sorted lists with the same per-key subsequences are equal |
| JarSort.InsertByNameSorted | src/main/java/org/jarhc/loader/WarFileLoader.java:71 | inserting into a sorted list keeps it sorted |
| JarSort.InsertByNamePermutation | src/main/java/org/jarhc/loader/WarFileLoader.java:71 | insertion adds exactly the inserted element |
| JarSort.InsertByNameKeyFilter | src/main/java/org/jarhc/loader/WarFileLoader.java:71 | insertion never moves an element past one with the same key |
| JarSort.InsertAt | src/main/java/org/jarhc/loader/WarFileLoader.java:71 | insertion puts the element behind the last one that is not greater and in front of the greater ones |
| JarSort.NameLeTotal | src/main/java/org/jarhc/loader/WarFileLoader.java:71 | any two JARs are ordered one way or the other |
| JarSort.NameLeTransitive | src/main/java/org/jarhc/loader/WarFileLoader.java:71 | the comparator's order is transitive |
| JarSort.NameLeBoth | src/main/java/org/jarhc/loader/WarFileLoader.java:71 | JARs ordered both ways have the same key |
| JarSort.NotNameLeKeys | src/main/java/org/jarhc/loader/WarFileLoader.java:71 | JARs ordered strictly have different keys |
| JarSort.KeyFilterConcat | src/main/java/org/jarhc/loader/WarFileLoader.java:71 | the JARs of a key in a concatenation are those of the first part followed by those of the second |
| JavaStrings.CompareToIgnoreCaseAntisymmetric | src/main/java/org/jarhc/loader/WarFileLoader.java:71 | swapping the names negates the comparison |
| JavaStrings.CompareToIgnoreCaseZero | src/main/java/org/jarhc/loader/WarFileLoader.java:71 | two names compare equal exactly when they are equal after case folding |
| JavaStrings.CompareToIgnoreCaseTransitive | src/main/java/org/jarhc/loader/WarFileLoader.java:71 | the "not after" relation of `compareToIgnoreCase` is transitive |
| FieldDefs.FieldDef.GetModifiers | src/main/java/org/jarhc/model/FieldDef.java:46-66 | the ten flag tests, in order, build exactly the specified modifier string |
| FieldDefs.TokensUnrolled | src/main/java/org/jarhc/model/FieldDef.java:49-63 | the specified token list is one conditional token per entry: public, protected, private, static, final, volatile, transient, `(synthetic)`, `(enum)`, `@Deprecated` |
| FieldDefs.ModifierListedIff | src/main/java/org/jarhc/model/FieldDef.java:50-63 | a modifier token appears exactly when its flag is set |
| FieldDefs.ModifierTokensCanonical | src/main/java/org/jarhc/model/FieldDef.java:49-63 | no token appears twice, and the tokens come in table order |
| FieldDefs.FieldModifiersDistinct | src/main/java/org/jarhc/model/FieldDef.java:50-63 | no two entries of the table print the same token |
| FieldDefs.TokensAreWords | src/main/java/org/jarhc/model/FieldDef.java:50-63 | every token is a non-empty word without spaces |
| FieldDefs.ModifiersWords | src/main/java/org/jarhc/model/FieldDef.java:65 | the modifier string splits at single spaces back into exactly its tokens |
| FieldDefs.ModifiersEmptyIff | src/main/java/org/jarhc/model/FieldDef.java:65 | the modifier string is empty exactly when no field flag is set |
| FieldDefs.TokensEmptyIff | src/main/java/org/jarhc/model/FieldDef.java:47-65 | nothing is listed exactly when no entry's flag is set |
| FieldDefs.MethodAndClassFlagsIgnored | src/main/java/org/jarhc/model/FieldDef.java:46-66 | the modifier tokens depend only on the field flag bits |
| FieldDefs.NoMethodOrClassTokens | src/main/java/org/jarhc/model/FieldDef.java:46-66 | abstract, synchronized, native, strictfp, interface and `@interface` never appear, whatever bits are set |
| FieldDefs.MethodOrClassFlagIgnored | src/main/java/org/jarhc/model/FieldDef.java:46-66 | setting any one of the synchronized, native, interface, abstract, strict or annotation flags leaves the modifier string unchanged |
| FieldDefs.ModifiersFromTable | src/main/java/org/jarhc/model/FieldDef.java:50-63 | every listed token is the token of one of the ten tested flags, so no other modifier can appear |
| FieldDefs.FieldDef.DisplayName | src/main/java/org/jarhc/model/FieldDef.java:68-76 | the display name ends with a space and the field name |
| FieldDefs.DisplayNameIsJoin | src/main/java/org/jarhc/model/FieldDef.java:68-76 | both branches equal the single-space join of the tokens, the type name and the field name; so the result is "type name" with no modifiers and "modifiers type name" otherwise |
| FieldDefs.DisplayNameWords | src/main/java/org/jarhc/model/FieldDef.java:68-76 | when the type name and field name are words, the display name splits back into tokens, type name and field name |
| FieldDefs.FieldDef.ToString | src/main/java/org/jarhc/model/FieldDef.java:79-81 | `FieldDef[` and `]` around exactly the display name |
| AccessFlags.TokenListedIff | src/main/java/org/jarhc/model/FieldDef.java:50-63 | with distinct tokens, an entry's token is listed exactly when its flag is set |
| AccessFlags.TokensDistinct | src/main/java/org/jarhc/model/FieldDef.java:50-63 | with distinct tokens, no token is listed twice |
| AccessFlags.TokensInTableOrder | src/main/java/org/jarhc/model/FieldDef.java:50-63 | the listed tokens come in table order |
| AccessFlags.TokensFromTable | src/main/java/org/jarhc/model/FieldDef.java:50-63 | every listed token belongs to an entry of the table |
| AccessFlags.TokensAvoid | src/main/java/org/jarhc/model/FieldDef.java:50-63 | a token that no entry carries is never listed |
| AccessFlags.SelectedSpec | src/main/java/org/jarhc/model/FieldDef.java:50-63 | the p-th listed token is the token of the p-th set entry, and the set entries are exactly those whose flag is set |
| AccessFlags.SelectedPositions | src/main/java/org/jarhc/model/FieldDef.java:50-63 | the selected positions are increasing and are exactly the set entries |
| AccessFlags.SelectedIncreasing | src/main/java/org/jarhc/model/FieldDef.java:50-63 | the selected positions lie in the table and increase |
| AccessFlags.SelectedMembers | src/main/java/org/jarhc/model/FieldDef.java:50-63 | a position is selected exactly when its flag is set |
| AccessFlags.TokensAtSelected | src/main/java/org/jarhc/model/FieldDef.java:50-63 | the p-th listed token is the token of the p-th selected entry |
| AccessFlags.IndexOfToken | src/main/java/org/jarhc/model/FieldDef.java:50-63 | the first position carrying the token, or the table length when none does |
| AccessFlags.TokensOfWords | src/main/java/org/jarhc/model/FieldDef.java:50-63 | when every entry's token is a word, every listed token is a word |
| JavaStrings.WordsOfJoin | src/main/java/org/jarhc/model/FieldDef.java:65 | splitting a single-space join of words gives back the words |
| JavaStrings.JoinEmpty | src/main/java/org/jarhc/model/FieldDef.java:65 | a join of words is empty exactly when there are no words |
| JavaStrings.JoinAppend | src/main/java/org/jarhc/model/FieldDef.java:65 | joining one more part appends a single space and the part |
| Classpaths.Classpath.constructor | src/main/java/org/jarcheck/model/Classpath.java:33-50 | the classpath holds the given JARs in their order, and both maps index them |
| Classpaths.NewClasspath | src/main/java/org/jarcheck/model/Classpath.java:31-35 | a null list fails with the message `jarFiles`; otherwise a classpath of that list whose indices are valid |
| Classpaths.Classpath.GetJarFiles | src/main/java/org/jarcheck/model/Classpath.java:57-59 | the JARs given to the constructor, same order |
| Classpaths.Classpath.GetJarFile | src/main/java/org/jarcheck/model/Classpath.java:61-70 | null exactly when no JAR has the name; otherwise a JAR of that name with no JAR of the same name after it |
| Classpaths.FileNameIndexLastWins | src/main/java/org/jarcheck/model/Classpath.java:38-41 | the file-name map holds the last JAR of each name and nothing under an absent name |
| Classpaths.LastIndexNamed | src/main/java/org/jarcheck/model/Classpath.java:41 | the position of the last JAR with the name, or -1 |
| Classpaths.Classpath.GetClassDefs | src/main/java/org/jarcheck/model/Classpath.java:72-81 | null exactly when no class of the classpath has the name; otherwise exactly the classpath's class definitions of that name, non-empty, each with that name |
| Classpaths.IndexClassDefsSpec | src/main/java/org/jarcheck/model/Classpath.java:43-48 | under each name the multimap holds exactly the class definitions of that name, and it has no empty entries |
| Classpaths.ClassDefsOfMember | src/main/java/org/jarcheck/model/Classpath.java:38-49 | a class definition is on the classpath exactly when some JAR has it |
| Classpaths.ClassDefIndexed | src/main/java/org/jarcheck/model/Classpath.java:38-49 | every class definition of every JAR is found under its own class name |
| Classpaths.ClassDefsAbsent | src/main/java/org/jarcheck/model/Classpath.java:72-81 | the lookup is null exactly when no JAR has a class of that name |
| Classpaths.Classpath.ToString | src/main/java/org/jarcheck/model/Classpath.java:83-86 | `Classpath[`, then the number of JARs as a decimal string, then `]` |
| JavaStrings.NatToString | src/main/java/org/jarcheck/model/Classpath.java:85 | a non-empty digit string without leading zeros |
| JavaStrings.DecimalValueOfNatToString | src/main/java/org/jarcheck/model/Classpath.java:85 | the decimal string reads back as the number |
| Reports.ReportTable.constructor | src/main/java/org/jarhc/analyzer/JarFilesListAnalyzer.java:42 | a table with the given columns and no rows |
| Reports.ReportTable.AddRow | src/main/java/org/jarhc/analyzer/JarFilesListAnalyzer.java:56 | appends exactly one row after the existing ones |
| Reports.ReportSection.constructor | src/main/java/org/jarhc/analyzer/JarFilesListAnalyzer.java:35 | a section with the given title and description and no content |
| Reports.ReportSection.Add | src/main/java/org/jarhc/analyzer/JarFilesListAnalyzer.java:36 | appends the table after the existing content |
| JarFilesListAnalyzers.BuildTable | src/main/java/org/jarhc/analyzer/JarFilesListAnalyzer.java:40-67 | a new table with columns ("JAR file", "Size", "Java class files"), one row per JAR in classpath order, then the totals row |
| JarFilesListAnalyzers.Analyze | src/main/java/org/jarhc/analyzer/JarFilesListAnalyzer.java:30-38 | a new section titled "JAR Files" and described as "List of JAR files found in classpath.", holding exactly that one table |
| JarFilesListAnalyzers.JarRows | src/main/java/org/jarhc/analyzer/JarFilesListAnalyzer.java:50-61 | row i is the name, formatted size and class count of the i-th JAR |
| JarFilesListAnalyzers.RowsShape | src/main/java/org/jarhc/analyzer/JarFilesListAnalyzer.java:42-64 | the table has one row more than there are JARs, and each row has three values; each JAR row is name, formatted size and decimal class count; the last row is "Classpath", the formatted total size and the decimal total class count |
| JarFilesListAnalyzers.EmptyClasspathRows | src/main/java/org/jarhc/analyzer/JarFilesListAnalyzer.java:45-64 | an empty classpath gives the single row ("Classpath", formatted 0, "0") |
| JarFilesListAnalyzers.TotalClassCountIsColumnSum | src/main/java/org/jarhc/analyzer/JarFilesListAnalyzer.java:55-64 | the totals row's class count is the sum of the class counts printed in the rows above it |
| JarFilesListAnalyzers.TotalsConcat | src/main/java/org/jarhc/analyzer/JarFilesListAnalyzer.java:59-60 | the totals are additive over any split of the JAR list |

## Left out

- Reading the archive:
  - the ZIP decoding, the `FileInputStream` and closing the stream are not modelled;
  - the stream is a sequence of entries, each with its name, a directory flag and the bytes `IOUtils.toByteArray` would deliver;
  - an entry that cannot be read is `Unreadable`, and it and any loader failure are both reported as the single `IOFailure`;
  - the model does not say which `IOException` occurred.
- `JarFileLoader.load`, `FileUtils.getFilename`, `FileUtils.formatFileSize` and ASM's `Type.getType(...).getClassName()` are parameters. Their code is not shown, so nothing is assumed about them.
- `JarFile`, `ClassDef`, `ReportTable`, `ReportSection`, `MultiMap` and the access-flag base class of `FieldDef` are not part of this model beyond what the core uses of them.
  - `ClassDef` keeps its class name and version and has value equality.
  - The multimap is a `map` from class names to sets; no iteration order is claimed.
- FieldDefs.FieldDef: the getters `getFieldName` and `getFieldDescriptor` are the datatype's fields `fieldName` and `fieldDescriptor`, so they return the constructor's arguments by construction and carry no contract of their own.
- AccessFlags: the bit layout of the access-flag base class, which is not shown, follows the Java Virtual Machine Specification and ASM's `ACC_DEPRECATED` (0x20000).
- FieldDefs.FieldDef.GetModifiers: each `if (isX()) parts.add(token)` is written as appending a list that holds the token when the flag is set and is empty otherwise. It has the same effect.
- JavaStrings.CompareToIgnoreCase: only the ASCII letters A-Z are case-folded; Java folds every character through `Character.toUpperCase` and `Character.toLowerCase`.
- JavaStrings.CompareToIgnoreCase: a `string` here is a sequence of Unicode scalar values, while Java compares UTF-16 code units and counts code units for the length difference.
  - Names with a character above U+FFFF can therefore sort differently.
  - For example, Java puts a name starting with U+10000 (code unit 0xD800) before one starting with U+E000; this model puts it after.
- Classpaths.Classpath.ToString: the count is always written in ASCII digits; the digit localisation that `String.format` with `%d` applies under the default locale is not modelled.
- Classpaths.Classpath.GetClassDefs: class definitions are values, so two JARs holding class definitions with the same name and version contribute one element to the set; the source keeps one object per JAR.
- WarFileLoaders.ZipEntry: the directory flag is not tied to the name ending in `/`, as it is in a ZIP stream, so the model admits entries a stream cannot deliver. The properties hold for all of them.
- Classpaths.Classpath.GetJarFiles: Java returns an unmodifiable view of a private copy. Dafny sequences are values, so later changes to the caller's list are excluded by construction.
- JarFilesListAnalyzers.BuildTable: the totals are unbounded integers; the wrap-around of the source's `long` size total and `int` class-count total is not modelled.
- The split-packages analyzer is not part of this model.
- Rendering reports to text, and the platform line separator, are not modelled.
