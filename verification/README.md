# verify-student-gl-setup, modelled in Dafny

The program reads a list of student usernames and an access token. It asks a
GitLab server for each username's user id, then writes the usernames it
resolved to `found.txt` and the rest to `not_found.txt`. This project models
the pure logic of `src/main.rs` around its file and network I/O:

- **Token loading** (`read_token_file`), in module `Token`. All whitespace is
  removed from the token file's text, including whitespace in the middle.
- **Student list loading** (`parse_csv_file`), in module `Roster`. Each line
  becomes one identifier, trimmed as Rust's `str::trim` trims, in file order.
- **Lookup** (`retrieve_user_id`), in module `Lookup`. A username query
  resolves to the id of the first record returned, or to nothing when no
  record comes back.
- **Verification pass** (`verify_students`), in module `Students`. One
  sequential pass puts every student in the found list or the not-found
  list. Each list is then rendered as its output file (module `Report`).
- **`main`** (`Students.Run`). Any argument count other than six gives the
  usage text. Otherwise the run goes token → students → lookups → files.

Whitespace is the Unicode `White_Space` property, which is what Rust's
`char::is_whitespace` and `str::trim` use. It is spelled out in module
`Unicode`. Apart from that predicate's own contract, no proof depends on
which characters it contains. Module
`Seqs` holds the order-preserving `Filter` and the subsequence relation.
Both token normalisation and the partition are defined as filters.

The remote GitLab service is a parameter, `Directory`. It maps an access token
and a username to the user records the service returns for that query. Using a
function fixes each query's answer for the length of one run. The program's
inputs are parameters as well: the token file's text, the lines of the
student list file, and the argument list. The outputs are the two files'
contents.

In the code (src/main.rs:78-81), a blank line becomes an empty identifier: it
is looked up and written like any other. `ParseStudentLines` and `TrimBlank`
state this behaviour.

## Model

| member | source | states |
|---|---|---|
| Unicode.IsWhitespace | src/main.rs:93 | the whitespace test of `char::is_whitespace` (also used by `str::trim` at src/main.rs:80): among ASCII characters exactly space and tab through carriage return, and nothing beyond U+3000 |
| Token.NormaliseToken | src/main.rs:90-95 | the token has no whitespace at any position, is a subsequence of the text, and holds exactly the non-whitespace character values that occur in the text; how many of each and in what order is fixed by `Token.TokenIsLongestVisibleSubsequence` |
| Token.TokenIsLongestVisibleSubsequence | src/main.rs:93 | the token is the longest whitespace-free subsequence of the text and the only one of that length, so it is exactly the non-whitespace characters in their original order |
| Token.NormaliseFixedPoint | src/main.rs:93 | normalising leaves a text unchanged exactly when it contains no whitespace |
| Token.NormaliseIdempotent | src/main.rs:93 | normalising a token a second time changes nothing |
| Token.NormaliseAppend | src/main.rs:93 | whitespace is removed wherever it is, so the token of a concatenation is the concatenation of the tokens, e.g. a token split across lines |
| Roster.TrimStart | src/main.rs:80 | the result is no longer than the line and does not start with whitespace |
| Roster.TrimStartCuts | src/main.rs:80 | what trimming the start removes is a prefix made only of whitespace, and the rest is the line's suffix |
| Roster.TrimEnd | src/main.rs:80 | the result is no longer than the line and does not end with whitespace |
| Roster.TrimEndCuts | src/main.rs:80 | what trimming the end removes is a suffix made only of whitespace, and the rest is the line's prefix |
| Roster.Trim | src/main.rs:80 | a trimmed line neither starts nor ends with whitespace and is no longer than the line |
| Roster.TrimCuts | src/main.rs:80 | the trimmed line is a slice of the line, and only whitespace lies before and after it |
| Roster.TrimUnique | src/main.rs:80 | any slice that has only whitespace around it and does not start or end with whitespace is the trimmed line, so trimming has exactly one possible result |
| Roster.TrimFixedPoint | src/main.rs:80 | trimming leaves a string unchanged exactly when it neither starts nor ends with whitespace |
| Roster.TrimIdempotent | src/main.rs:80 | trimming an entry again changes nothing |
| Roster.TrimBlank | src/main.rs:78-81 | a line trims to the empty identifier exactly when it is entirely whitespace |
| Roster.TrimLines | src/main.rs:78-81 | one identifier per line, as many as there are lines |
| Roster.ParseStudentLines | src/main.rs:74-83 | the loop's result is one entry per input line, in file order, each the trimmed line; every entry is trimmed; an entry is empty exactly when its line is blank, so blank lines are kept rather than skipped |
| Lookup.FirstUserId | src/main.rs:67-71 | no id exactly when the response is empty; otherwise the id of the response's first record |
| Lookup.FirstUserIdIgnoresLaterRecords | src/main.rs:67-71 | once a response holds a record, records listed after it never change the result (first match wins) |
| Lookup.FirstUserIdExample | src/main.rs:67-71 | with two matching records the first record's id is used; an empty response gives no id |
| Lookup.RetrieveUserId | src/main.rs:64-72 | a student has no id exactly when the username query returns no records; otherwise the id is that of the first returned record |
| Report.RenderLines | src/main.rs:53-55 | an output file is empty exactly when its list is empty, and otherwise ends with a line feed |
| Report.RenderLinesAppend | src/main.rs:53-56 | writing two lists one after the other gives the two renderings concatenated |
| Report.WriteLines | src/main.rs:52-56 | appending `name + "\n"` for each name in order gives the list's rendering; when no name contains a line feed, reading that file back line by line gives the list again |
| Report.SplitRenderLines | src/main.rs:53-60 | round trip: reading back a rendered list of line-feed-free names gives exactly that list, one line per entry, in order |
| Students.PartitionStudents | src/main.rs:38-50 | found is the input filtered by "the lookup yields an id" and not-found the input filtered by "it does not", both keeping input order (the counts and membership facts follow in `Students.PartitionIsExact`) |
| Students.PartitionIsExact | src/main.rs:41-50 | every student lands in exactly one of the two lists, the sizes and multisets add up, and both lists are subsequences of the input |
| Students.VerifyStudents | src/main.rs:37-61 | `found.txt` holds the resolved students and `not_found.txt` holds the others, one per line in input order; when no student contains a line feed, each file read back gives its list |
| Students.Run | src/main.rs:17-35 | the usage text is produced exactly when the argument count is not six; otherwise the files are the rendering of the parsed students, looked up with the normalised token |
| Students.EveryStudentReportedOnce | src/main.rs:41-61 | read back, the two files hold one line per line of the list file between them; each identifier is in the found file exactly when its lookup yields an id, and in the other file exactly when it does not |
| Students.ExampleRun | src/main.rs:41-60 | for the list file "alice", "bob", "carol", with alice and carol known to the service and bob unknown, the found file is "alice\ncarol\n" and the not-found file is "bob\n" |

## Left out

- File reading and writing are left out. The model does not open, read, create or write files (src/main.rs:52, 57, 85-88, 91). Those are I/O; the model works on the text that was read and produces the text that is written.
- Line splitting by `BufReader::lines` is left out. This includes its stripping of a `"\r"` before a line feed. The student list arrives as a sequence of lines. A name may contain a `"\r"` inside it, since `lines()` splits only at line feeds, but no written name ends in `"\r"`: every name is trimmed and U+000D is whitespace. So that stripping would never apply when an output file is read back, and `Report.SplitLines` does not model it.
- The GitLab client is left out: `Gitlab::new`, `UsersBuilder`, `query` and the HTTP transport (src/main.rs:33, 65-66). They are foreign network calls, replaced by the `Directory` parameter. The fixed host name `git.uwaterloo.ca` is not used anywhere in the model.
- Students.PartitionIsExact and Students.EveryStudentReportedOnce rely on the service answering every query for a username the same way during a run, because `Directory` is a function. The source sends a fresh query for each list entry and caches nothing (src/main.rs:43). If the service's answer changed between two queries for a repeated username, that username would land in both files, and the "in found exactly when an id comes back" clauses would not hold. The model does not cover a service that changes its answers during a run.
- Panics from `unwrap`, `unwrap_or_else` and `panic!` are left out. These abort the whole process on I/O, API or client-construction failure, including `args.first().unwrap()` on an empty argument list. The model covers only runs that do not abort.
- Console output from `println!` is left out: the usage text and progress lines (src/main.rs:20-27, 42, 45). It is a console side effect; only the fact that the usage branch is taken is modelled.
- Running twice with the same inputs gives identical files. In the model this holds by construction, because every member is a pure function of its inputs and the `Directory`. No lemma states it.
- The Unicode tables behind `is_whitespace` and `trim` are left out as a subject of proof. `Unicode.IsWhitespace` lists the `White_Space` code points. Its contract checks the ASCII part of that list and its upper bound; no other proof depends on the list.
