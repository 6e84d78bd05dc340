# tnssync in Dafny

tnssync keeps an Oracle `tnsnames.ora` file in step with an LDAP directory.
It reads the names wanted from a sync file in the `TNS_ADMIN` directory. It
looks them up as `orclNetService` objects in the directory, and reads the
entries of the current `tnsnames.ora`. When that file is corrupt, or holds
other entries than the directory gave, it writes `tnsnames.tmpbuild.ora` and
moves it over `tnsnames.ora`.

This project models the reconciliation core of the program and proves what
it promises:

- `TnsEntries` and `TnsSyncEntries` model the two value classes. A
  `TnsEntry` is a net service name and its description. A `TnsSyncEntry` is
  an alias name and the net service it refers to. Each is a subset type: its
  values are exactly those its constructor can produce, with names trimmed
  and upper-cased and descriptions trimmed.
- `JavaLang` and `JavaIo` give the Java library behaviour the core depends
  on:
  - `String.trim`, ASCII `toUpperCase` and `String.compareTo`;
  - `String.hashCode` in 32-bit arithmetic;
  - `String.split` with a one-character pattern;
  - the regex classes `\s`, `\w` and `.`;
  - `BufferedReader.readLine`, the `Scanner` default delimiter and
    `nextLine`;
  - `PrintWriter.println`.
- `EntrySort` models `Collections.sort`. It is specified as a stable sort by
  a key, `SortBy`, and carried out in place on an array by `SortInPlace`.
- `AppFiles` models `AppFileHandler`:
  - the sync-file tokenizer `getTnsSyncList`;
  - the `tnsnames.ora` line parser `getCurrentTnsEntryList`, with its corrupt
    flag;
  - the renderer `writeNetServiceDataToBuildFile`;
  - the final move.

  The handler is a class. Its fields are the three files, and its methods
  change them.
- `Ldap` models `LdapHandler`. It covers the provider-URL parsing, the
  connection failover that caches its first success in `mCtx`, and the
  filtered, sorted query. Connecting and searching are oracle parameters.
- `TnsSync` models the static methods of `TnsSyncFromLdap`: `equalLists`,
  `getUniqueNetServiceNameList` and `createTnsEntryListForTnsSyncEntries`.
  It also models the write-or-leave-alone decision that `main` makes once the
  directory's entries are known.

The main results are these:

- Normalisation facts about the two constructors.
- A generated `tnsnames.ora` reads back as the entries written to it, not
  corrupt.
- A second run with the same directory data therefore leaves the file
  alone.
- The failover tries endpoints in order and stops at the first that
  connects.
- The query returns the matching entries sorted by name.
- The TreeMap projection is strictly ascending, and the last alias of a name
  wins.
- `equalLists` is independent of element order when names are distinct.

The read-back holds only for entries whose name is a run of `\w` characters
and whose description is one line. A name with a dot, such as `DB.WORLD`, is
written as `DB.WORLD = ...`. The regex `^\s*(\w+?)\s*=` does not match that
line (`AppFiles.DottedNameLineIsBad`), so the file is read back as corrupt,
with only the entries before that line (`AppFiles.StrayNameCharFileIsCorrupt`),
and it is rewritten on every run (`TnsSync.StrayNameCharRewritesEveryRun`).

## Model

| member | source | states |
|---|---|---|
| TnsEntries.NewTnsEntryNormalises | src/com/aleerant/tnssync/TnsEntry.java:8-11 | The stored name is trimmed, upper case and equal to the trimmed argument up to letter case. The stored description is the argument without its surrounding whitespace, with its case kept. |
| TnsEntries.NewTnsEntryOfGetters | src/com/aleerant/tnssync/TnsEntry.java:8-19 | Building an entry from an existing entry's two getters gives back the same entry, so normalisation is idempotent. |
| TnsEntries.TnsNamesEntryFormatReadsBack | src/com/aleerant/tnssync/TnsEntry.java:21-23 | `getTnsNamesEntryFormat` writes the name, `" = "` and the description. When the name holds no `=`, splitting the line at its first `=` and building an entry from the two sides gives back the same entry. |
| TnsEntries.Equals | src/com/aleerant/tnssync/TnsEntry.java:31-41 | `equals` holds exactly when both fields are equal, that is, when the two entries are the same value. |
| TnsEntries.HashCode | src/com/aleerant/tnssync/TnsEntry.java:43-51 | `hashCode` is a 32-bit int. The body computes 37 * (37 + name hash) + description hash, with wrap-around. |
| TnsEntries.HashCodeConsistentWithEquals | src/com/aleerant/tnssync/TnsEntry.java:31-51 | Entries that are `equals` have equal hash codes. |
| TnsEntries.CompareToIsNameOrder | src/com/aleerant/tnssync/TnsEntry.java:53-56 | `compareTo` is 0 exactly when the names are equal, and it is antisymmetric. |
| TnsEntries.CompareToInconsistentWithEquals | src/com/aleerant/tnssync/TnsEntry.java:31-56 | Two entries with one name and different descriptions compare as 0, yet are not `equals`. |
| TnsSyncEntries.NewTnsSyncEntryNormalises | src/com/aleerant/tnssync/TnsSyncEntry.java:8-11 | Both stored fields are trimmed and upper case. Each equals its trimmed argument up to letter case. |
| TnsSyncEntries.NewTnsSyncEntryIgnoresCaseAndPadding | src/com/aleerant/tnssync/TnsSyncEntry.java:8-41 | Arguments that differ only in letter case and surrounding whitespace build entries that are `equals`. |
| TnsSyncEntries.TnsSyncEntryFormatReadsBack | src/com/aleerant/tnssync/TnsSyncEntry.java:8-23 | `entryName + " = " + netServiceName`, cut at its first `=` and given back to the constructor, rebuilds the entry when the alias holds no `=`. |
| TnsSyncEntries.Equals | src/com/aleerant/tnssync/TnsSyncEntry.java:31-41 | `equals` holds exactly when both fields are equal. |
| TnsSyncEntries.HashCode | src/com/aleerant/tnssync/TnsSyncEntry.java:43-51 | `hashCode` is a 32-bit int. |
| TnsSyncEntries.HashCodeConsistentWithEquals | src/com/aleerant/tnssync/TnsSyncEntry.java:31-51 | Entries that are `equals` have equal hash codes. |
| TnsSyncEntries.CompareToIsEntryNameOrder | src/com/aleerant/tnssync/TnsSyncEntry.java:53-56 | `compareTo` is 0 exactly when the alias names are equal, and it is antisymmetric. |
| JavaLang.TrimToUpperCommute | src/com/aleerant/tnssync/TnsEntry.java:9 | Trimming then upper-casing equals upper-casing then trimming, because upper-casing neither creates nor removes a trimmable character. |
| JavaLang.LessTrichotomy | src/com/aleerant/tnssync/TnsEntry.java:55 | `String.compareTo` is a strict total order: exactly one of a < b, a == b and b < a holds. |
| JavaLang.LessTransitive | src/com/aleerant/tnssync/TnsEntry.java:55 | The order of `String.compareTo` is transitive. |
| JavaLang.CompareZeroIff | src/com/aleerant/tnssync/TnsEntry.java:55 | `String.compareTo` is 0 exactly for equal strings. |
| JavaLang.SetToList | src/com/aleerant/tnssync/AppFileHandler.java:69-70 | `addAll` of a HashSet into a new list holds every element of the set exactly once, in an unspecified order. |
| EntrySort.SortBySorted | src/com/aleerant/tnssync/LdapHandler.java:100-102 | The list left by `Collections.sort` is ordered by name. |
| EntrySort.SortBy | src/com/aleerant/tnssync/LdapHandler.java:101 | Sorting keeps the length and the multiset of elements: it is a permutation. |
| EntrySort.SortByStable | src/com/aleerant/tnssync/TnsSyncFromLdap.java:91-92 | The sort is stable: the elements that share a name keep their relative order. |
| EntrySort.SortByOfSorted | src/com/aleerant/tnssync/TnsSyncFromLdap.java:91-92 | Sorting an ordered list leaves it unchanged. |
| EntrySort.SortByIdempotent | src/com/aleerant/tnssync/TnsSyncFromLdap.java:91-92 | Sorting twice gives the same list as sorting once. This matters when both arguments of `equalLists` are one list. |
| EntrySort.SortByStrict | src/com/aleerant/tnssync/LdapHandler.java:100-102 | A list whose names are distinct sorts to a strictly ascending list. |
| EntrySort.StrictlyAscendingUnique | src/com/aleerant/tnssync/TnsSyncFromLdap.java:91-93 | Two strictly ascending lists with the same elements are equal. |
| EntrySort.SortByEqualIffSameElements | src/com/aleerant/tnssync/TnsSyncFromLdap.java:91-93 | When neither list repeats a name, the sorted lists are equal exactly when the two lists hold the same elements, whatever their order. |
| EntrySort.SortInPlace | src/com/aleerant/tnssync/TnsSyncFromLdap.java:91 | Sorting an array in place leaves in it the sort, by `SortBy`, of its old contents. |
| EntrySort.InsertLast | src/com/aleerant/tnssync/TnsSyncFromLdap.java:91 | One round of the in-place sort moves the next element into place among the sorted elements before it, and changes nothing after it. |
| AppFiles.AppFileHandler.constructor | src/com/aleerant/tnssync/AppFileHandler.java:31-42 | The handler starts with the three files of the `TNS_ADMIN` directory and the corrupt flag down. |
| AppFiles.AppFileHandler.GetTnsSyncList | src/com/aleerant/tnssync/AppFileHandler.java:44-73 | A missing sync file gives `TnsSyncFileMissingException`. Otherwise the result lists, each exactly once, the words `SyncList` collects. |
| AppFiles.SyncWordsAreNames | src/com/aleerant/tnssync/AppFileHandler.java:52-60 | Every word collected is non-empty, upper case, free of whitespace and does not start with `#`. |
| AppFiles.SyncWordsOfWord | src/com/aleerant/tnssync/AppFileHandler.java:53-59 | A token that does not start with `#` is collected upper-cased. |
| AppFiles.SyncWordsOfComment | src/com/aleerant/tnssync/AppFileHandler.java:55-56 | A token that starts with `#` drops the rest of its line, words included. The line ends at whichever terminator `nextLine` recognises (`\n`, `\r`, `\r\n`, U+0085, U+2028, U+2029), and collection resumes after it. When no terminator follows, no words remain. |
| AppFiles.CommentToken | src/com/aleerant/tnssync/AppFileHandler.java:55-56 | After a `#` token, collection resumes where `nextLine` leaves the scanner. |
| JavaIo.NextLineEndAt | src/com/aleerant/tnssync/AppFileHandler.java:56 | `nextLine` consumes the line up to its first terminator and that terminator, `\r\n` counting as one, or all the input when there is none. |
| AppFiles.SyncWordsOfTrailingComment | src/com/aleerant/tnssync/AppFileHandler.java:55-56 | A `#` token with nothing after it makes `nextLine` throw, and no list is returned. |
| AppFiles.SyncWordsSkipsWhitespace | src/com/aleerant/tnssync/AppFileHandler.java:52-53 | Whitespace between tokens is skipped. |
| AppFiles.WordOfToken | src/com/aleerant/tnssync/AppFileHandler.java:53 | `replaceAll("\\s", "")` never changes a token, so the word is the upper-cased token. |
| AppFiles.AppFileHandler.GetCurrentTnsEntryList | src/com/aleerant/tnssync/AppFileHandler.java:75-111 | The result and the corrupt flag are those of `ReadTnsNames` for the file: a missing file gives no entries and no corruption, and a read error gives `AppException` with the flag down. |
| AppFiles.ParseTnsNamesCons | src/com/aleerant/tnssync/AppFileHandler.java:84-100 | Each line is either skipped, or appended as `new TnsEntry(group 1, group 2)`, or marks the file corrupt and stops the reading. |
| AppFiles.ParseTnsNamesConcat | src/com/aleerant/tnssync/AppFileHandler.java:84-100 | The entries before the first bad line are kept, and the lines after it are never read. |
| AppFiles.ParseTnsNamesCorruptIff | src/com/aleerant/tnssync/AppFileHandler.java:86-100 | The file is found corrupt exactly when one of its lines is neither blank, nor a comment, nor a match of the regex. |
| AppFiles.MatchEntryLine | src/com/aleerant/tnssync/AppFileHandler.java:80-92 | A match yields a non-empty run of `\w` as group 1, and a group 2 that holds no line terminator. |
| AppFiles.MatchEntryLineComplete | src/com/aleerant/tnssync/AppFileHandler.java:80-92 | A line laid out as `\s* \w+ \s* = \s* .*` matches, and its groups are the name and the rest of the line. |
| AppFiles.MatchEntryLineSound | src/com/aleerant/tnssync/AppFileHandler.java:80-92 | Every match comes from a line with that layout. |
| AppFiles.SkippedLinesParse | src/com/aleerant/tnssync/AppFileHandler.java:86-88 | A file made only of comments and blank lines reads as no entries, not corrupt. |
| AppFiles.AppFileHandler.IsCurrentTnsNamesCorrupt | src/com/aleerant/tnssync/AppFileHandler.java:113-115 | The result is the corrupt flag left by the last read. |
| AppFiles.AppFileHandler.WriteNetServiceDataToBuildFile | src/com/aleerant/tnssync/AppFileHandler.java:117-135 | The build file becomes the two head lines, the `#Modified:` line, a blank line and one `getTnsNamesEntryFormat` line per entry, in list order. When the file cannot be created, it is an `AppException` and nothing changes. |
| AppFiles.HeaderSkipped | src/com/aleerant/tnssync/AppFileHandler.java:123-125 | Every header line is a comment or blank, so the reader skips it. |
| AppFiles.EntryLineReadsBack | src/com/aleerant/tnssync/AppFileHandler.java:127 | The line written for an entry whose name is a run of `\w` and whose description is one line is read back as that very entry. |
| AppFiles.BuildFileReadsBack | src/com/aleerant/tnssync/AppFileHandler.java:117-128 | A generated build file reads back as exactly the entries written, in order, not corrupt. |
| AppFiles.StrayNameCharLineIsBad | src/com/aleerant/tnssync/AppFileHandler.java:80-100 | The line written for a name whose leading run of `\w` stops at a character that is neither `\w`, `\s` nor `=` is neither skipped nor matched, so it marks the file corrupt. |
| AppFiles.DottedNameLineIsBad | src/com/aleerant/tnssync/AppFileHandler.java:80-100 | `DB.WORLD` is such a name, and its line is a bad line. |
| AppFiles.StrayNameCharFileIsCorrupt | src/com/aleerant/tnssync/AppFileHandler.java:84-128 | A generated file whose k-th entry has such a name reads back corrupt, holding only the entries before the k-th. |
| AppFiles.AppFileHandler.MoveBuildFileToFinal | src/com/aleerant/tnssync/AppFileHandler.java:137-148 | The build file replaces `tnsnames.ora`, or the move fails with `AppException` and nothing changes. |
| Ldap.ProviderUrlPiecesClean | src/com/aleerant/tnssync/LdapHandler.java:67-69 | No piece of the provider-URL list holds a parenthesis, a `\s` character or a comma. |
| Ldap.ProviderUrlListKeepsOrder | src/com/aleerant/tnssync/LdapHandler.java:67-69 | Joined with commas, the pieces give the cleaned setting without trailing commas, so order and content are kept. |
| Ldap.RemoveUrlNoise | src/com/aleerant/tnssync/LdapHandler.java:68 | `replaceAll("[()\\s]", "")` leaves no parenthesis and no `\s` character. |
| Ldap.RemoveUrlNoiseConcat | src/com/aleerant/tnssync/LdapHandler.java:68 | The removal works character by character: cleaning a concatenation cleans each part. |
| Ldap.RemoveUrlNoiseKeepsClean | src/com/aleerant/tnssync/LdapHandler.java:68 | Every character that is not a parenthesis or `\s` is kept, so a clean setting is left unchanged. |
| Ldap.RemoveUrlNoiseDropsNoise | src/com/aleerant/tnssync/LdapHandler.java:68 | A parenthesis or `\s` character is removed. |
| Ldap.Endpoints | src/com/aleerant/tnssync/LdapHandler.java:40-42 | The endpoints tried are `"ldap://"` followed by each piece, in list order. |
| Ldap.FirstConnectable | src/com/aleerant/tnssync/LdapHandler.java:40-47 | The chosen endpoint connects and no earlier one does. When none is chosen, no endpoint connects. |
| Ldap.ConnectFailover | src/com/aleerant/tnssync/LdapHandler.java:40-62 | The endpoints are tried in order, and every attempt but the last fails. A context is kept exactly when some endpoint connects, and it is the last one tried. When none connects, all were tried. |
| Ldap.LdapHandler.constructor | src/com/aleerant/tnssync/LdapHandler.java:27-32 | The handler starts with no context, no connection attempts and no searches. |
| Ldap.LdapHandler.GetCtx | src/com/aleerant/tnssync/LdapHandler.java:34-65 | A cached `mCtx` is returned with no attempt. Otherwise the endpoints are tried as `Connect`/`Attempts` say, and the first success is cached. When none connects, `AppException` is thrown and `mCtx` stays null. |
| Ldap.MatchesIff | src/com/aleerant/tnssync/LdapHandler.java:81-90 | A search result gives an entry exactly when its upper-cased `cn` is in the filter list, and the entry is `new TnsEntry(cn, orclNetDescString)`. |
| Ldap.LdapHandler.QueryTnsEntryList | src/com/aleerant/tnssync/LdapHandler.java:71-105 | A null or empty filter gives an empty list with no connection and no search: the context, the attempt log and the search log are unchanged. Otherwise a search is logged on the context exactly when one is obtained, and the result is the sort of the matches (a permutation, ordered by name), or `AppException` when connecting or searching fails. |
| TnsSync.EqualLists | src/com/aleerant/tnssync/TnsSyncFromLdap.java:86-94 | Two null lists are equal. Otherwise both lists are sorted in place by name, and the result says whether the sorted lists are element-wise `equals`. A null list among them is a NullPointerException. |
| TnsSync.EqualListsKeepsEntries | src/com/aleerant/tnssync/TnsSyncFromLdap.java:91-92 | `equalLists` only reorders its arguments: each keeps its multiset of entries and ends up ordered by name. |
| TnsSync.GetUniqueNetServiceNameList | src/com/aleerant/tnssync/TnsSyncFromLdap.java:96-107 | The result holds each net service name of the alias list exactly once, and nothing else. |
| TnsSync.LastByName | src/com/aleerant/tnssync/TnsSyncFromLdap.java:115-118 | The TreeMap maps each key to an alias that carries that name. |
| TnsSync.LastByNameKeys | src/com/aleerant/tnssync/TnsSyncFromLdap.java:115-118 | The TreeMap holds a key for each alias name of the list, and no other. |
| TnsSync.LastByNameWins | src/com/aleerant/tnssync/TnsSyncFromLdap.java:115-118 | Under each key the TreeMap holds the last alias of the list with that name. |
| TnsSync.PutAll | src/com/aleerant/tnssync/TnsSyncFromLdap.java:115-118 | The put loop builds exactly the map `LastByName` describes. |
| TnsSync.SmallestKey | src/com/aleerant/tnssync/TnsSyncFromLdap.java:121 | A non-empty set of keys has a least key under `String.compareTo`. This is where the TreeMap iteration starts. |
| TnsSync.FirstKey | src/com/aleerant/tnssync/TnsSyncFromLdap.java:121 | The next key visited is the least of those remaining. |
| TnsSync.ResolvedMapAt | src/com/aleerant/tnssync/TnsSyncFromLdap.java:123-126 | A key produces an entry exactly when its alias's net service is in the directory map. The entry is `new TnsEntry(alias name, that service's description)`, and it is named by the key. |
| TnsSync.CreateTnsEntryListForTnsSyncEntries | src/com/aleerant/tnssync/TnsSyncFromLdap.java:109-132 | The result is strictly ascending by name. It holds exactly the entries produced for the TreeMap's keys, so unmatched aliases are dropped. |
| TnsSync.ProjectionOfAliases | src/com/aleerant/tnssync/TnsSyncFromLdap.java:115-128 | An entry is produced exactly for an alias that is the last of its name and whose net service the directory returned, with the alias name and that service's description. |
| TnsSync.WriteAndMove | src/com/aleerant/tnssync/TnsSyncFromLdap.java:60-61 | Writing, then moving, either puts the generated text in place of `tnsnames.ora` or stops at the first failure, as `Rewritten` says. |
| TnsSync.EqualsCurrentList | src/com/aleerant/tnssync/TnsSyncFromLdap.java:59 | The directory's list is sorted in place, and the result says whether it equals the sorted current list. |
| TnsSync.UpdateTnsNames | src/com/aleerant/tnssync/TnsSyncFromLdap.java:56-67 | A new file is written and moved in place exactly when the current file is corrupt or `equalLists` finds the lists different. Otherwise nothing is written and the result is `Ok(false)`. A read error stops before any write: both files are unchanged, the corrupt flag stays down and the directory's list is not reordered. |
| TnsSync.StrayNameCharRewritesEveryRun | src/com/aleerant/tnssync/TnsSyncFromLdap.java:58-67 | A generated file with a name such as `DB.WORLD` reads back corrupt, so the next run rewrites it whatever the directory returns. |
| TnsSync.SecondRunLeavesFileAlone | src/com/aleerant/tnssync/TnsSyncFromLdap.java:58-67 | Suppose a file was generated from entries with distinct, `\w`-only names and one-line descriptions. The next run that gets the same entries, in any order, does not rewrite it. |

## Left out

- `PropertiesHandler.java` is not part of this model. It parses the command
  line, looks up the environment, loads properties and configures logging.
  The provider URLs, the admin context and the sync file name
  (`APP_TNSSYNC_FILENAME`, declared in `APPCONSTANT`, which is not part of
  this model) are parameters instead.
- `Utils.java` only formats stack traces. It is not part of this model.
- JNDI is not modelled:
  - `new InitialLdapContext(env, null)` is the oracle `connect`, applied to
    the PROVIDER_URL.
  - `search` is the oracle `search`, which gives the `cn` and
    `orclNetDescString` of every object found, or fails as a whole.
  - A `NamingException` thrown part-way through the enumeration is
    modelled as a failed search.
  - `getSimpleSearchControls` and the environment settings other than
    PROVIDER_URL belong to the oracle.
  - A missing `cn` or `orclNetDescString` attribute, which makes Java throw
    a NullPointerException, is not modelled.
- Files are values of `FileState`:
  - The file is missing or cannot be opened.
  - The file is readable and has given text.
  - The file opens, but reading it fails.

  Whether the build file can be created and whether it can be moved are the
  parameters `canCreate` and `canMove`. The timestamp written by
  `writeNetServiceDataToBuildFile` is a parameter, because it comes from the
  clock. The line separator of `println` is taken to be `\n`.
- AppFiles.AppFileHandler.GetTnsSyncList: a sync file whose reading fails is
  read as empty, as `Scanner` takes a failed read for the end of its input.
  The words read before a failure in the middle of the file are not
  modelled.
- AppFiles.AppFileHandler.GetCurrentTnsEntryList: a read failure is
  modelled only as a failure of the whole file, not after some lines were
  read. Java's result is the same either way, because the `AppException`
  discards the list.
- Case mapping, `trim`, `\s`, `\w` and `Character.isWhitespace` follow
  their Java definitions on the characters they name. `toUpperCase` is
  restricted to the ASCII letters, so locale and non-ASCII case mapping are
  not modelled.
- `Collections.sort` is modelled as an insertion sort in `EntrySort`. Java
  uses a merge sort. Both are stable sorts by the same key, so they leave
  the same list; the model does not prove this.
- `main` is modelled only from `getCurrentTnsEntryList` on, as
  `TnsSync.UpdateTnsNames`. The steps before it do not fit together as
  written:
  - `getTnsSyncList` returns `List<String>`, but `main` expects
    `List<TnsSyncEntry>`.
  - `queryTnsEntryMap` and `getTnsSyncFilePath` are not part of this model;
    `LdapHandler` offers `queryTnsEntryList` only.

  So `createTnsEntryListForTnsSyncEntries` takes its alias list and its
  name-to-entry map as inputs, and the directory's list arrives in
  `UpdateTnsNames` as an array. Logging, `MDC`, the "nothing to do"
  message and `System.exit` are left out.
- JavaLang.CompareStrings and JavaLang.StringHash: strings are sequences of
  Unicode code points, not of UTF-16 code units. For characters above
  U+FFFF, which Java stores as surrogate pairs, `compareTo` and `hashCode`
  can differ from Java's, and so can the sort order and the TreeMap order
  built on them. On characters up to U+FFFF both agree with Java.
- TnsEntries.HashCode and TnsSyncEntries.HashCode: the contracts state only
  the 32-bit range. The property that matters, consistency with `equals`, is
  proved in the `HashCodeConsistentWithEquals` lemmas.
- `toString` of both value classes only feeds logging, and is left out.
