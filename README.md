# Quick-Chat core, modelled in Dafny

Quick-Chat is a small Swing chat application. A person registers an account, logs in with at most three tries, composes
messages and stores them. This project models the three classes that hold its logic and state:

- `Validation` (validation.dfy). It checks the username, password and South African cell number formats with the
  application's regular expressions. It builds the registration report from those checks. Its login check records why
  the last attempt succeeded or failed.
- `Messages` (messages.dfy). It generates a ten-digit message id, checks a recipient, and builds the message hash
  (`AB:7:FIRSTLAST`). It keeps the ordered list of stored messages with a running `int` total and saves the list to
  `messages.json` after every store.
- `UserManager` (user_manager.dfy). It keeps the accounts by username and registers a new account when the report
  announces success and the name is free. It handles login, logout and the session, and saves the accounts to
  `users.json`.

Supporting modules:

- records.dfy holds the `User` and `MessageEntry` records.
- storage.dfy models a JSON file as the value last serialised into it. A flag says whether the file can be opened for writing.
- java_lang.dfy states the `java.lang` behaviour the classes rely on:
  - `null` as `Option`;
  - `int` wrap-around;
  - `length` in UTF-16 code units, `contains`, `trim`, `split("\\s+")`, `toUpperCase` and `Integer.toString`.
- java_regex.dfy is a small backtracking matcher for the fragment of `String.matches` the validators use:
  - classes and `.`;
  - `^` and `$` (which also holds before one final line terminator, though whole-input matching still has to consume it);
  - `*`, `+` and `{n}`.

Dialog answers become parameters. The login dialogs become a sequence of (username, password) answers; past its end, a
cancelled dialog yields `null`. The random digit of `generateMessageID` is a free choice. Both JSON files are objects
shared by every store that opens them, so a store created later reads what an earlier one wrote.

## Model

| member | source | states |
|---|---|---|
| JavaLang.ValueOf | src/main/java/Validation.java:116 | concatenation renders a reference as its text, and yields `null` exactly for a null reference or the text `null` itself |
| JavaLang.Contains | src/main/java/Validation.java:20 | `contains` never finds a longer string, and always finds one the text starts with |
| JavaLang.SplitOnWhitespace | src/main/java/Messages.java:79 | `split("\\s+")` yields pieces without whitespace; a text without whitespace is its only piece, and otherwise no trailing empty piece is kept |
| JavaLang.IntToDecimal | src/main/java/Messages.java:83 | the decimal form of an `int` is non-empty, starts with `-` exactly for a negative number, and is otherwise made of ASCII digits |
| JavaLang.Increment | src/main/java/Messages.java:148 | `totalMessages++` is two's-complement addition: the result is x+1 reduced into the `int` range, so the largest `int` wraps to the smallest |
| JavaLang.Utf16Length | src/main/java/Validation.java:32 | `length()` counts UTF-16 code units: at least one and at most two per character |
| JavaLang.Utf16LengthBasicPlane | src/main/java/Messages.java:56 | `length()` equals the number of characters exactly when no character lies outside the Basic Multilingual Plane |
| JavaLang.Trim | src/main/java/Messages.java:79 | `trim()` returns an infix of the text that neither starts nor ends with a character up to U+0020; everything cut away at either end is such a character |
| JavaLang.TrimBlank | src/main/java/Messages.java:79 | a text made only of characters up to U+0020 trims to the empty string |
| JavaLang.TrimKeeps | src/main/java/Validation.java:95 | `trim()` returns a text unchanged when its first and last characters are above U+0020 |
| JavaLang.SplitOfWordRun | src/main/java/Messages.java:79 | for a text that neither starts nor ends with `\s`, `split("\\s+")` returns exactly the pieces between the whitespace runs, with no empty piece dropped |
| JavaLang.SplitOfEmpty | src/main/java/Messages.java:79-80 | `"".split("\\s+")` has one element, the empty string, so `words[0]` is defined |
| JavaLang.ToUpper | src/main/java/Messages.java:83 | `toUpperCase()` keeps the length, leaves no lower-case letter, and keeps every character that is not a lower-case letter |
| JavaLang.ToUpperConcat | src/main/java/Messages.java:83 | upper-casing distributes over concatenation |
| JavaLang.IntToDecimalRoundTrip | src/main/java/Messages.java:83 | the decimal form of an `int` in the hash parses back to the same number and holds no colon, so the number field can be read back |
| JavaRegex.Matches | src/main/java/Messages.java:67 | `matches` needs the whole input: a pattern of single character positions accepts exactly the strings of its length whose every character is in the class at its position |
| JavaRegex.FixedLengthMatch | src/main/java/Validation.java:46 | the same for a match that starts at any point of the input |
| JavaRegex.OneOrMore | src/main/java/Validation.java:21 | `^c+$` matches exactly the non-empty strings made of characters of `c` |
| JavaRegex.ContainsClass | src/main/java/Validation.java:33-35 | `.*c.*` matches exactly the strings that have no line terminator and hold a character of `c` |
| JavaRegex.RepeatOne | src/main/java/Validation.java:45 | `c{n}` followed by a pattern matches exactly when the first n characters are in `c` and the pattern matches the rest |
| Validation.UserNamePatternMeaning | src/main/java/Validation.java:21 | `^[a-zA-Z0-9_]+$` matches exactly the non-empty strings of ASCII letters, digits and `_` |
| Validation.PasswordPatternsMeaning | src/main/java/Validation.java:33-35 | each of the three password patterns holds exactly when the password is single-line and has an ASCII capital, a digit, or one of `!@#_$%^&*()` respectively |
| Validation.CellPatternMeaning | src/main/java/Validation.java:45-46 | `^\+27\d{9}$` (and the anchorless `\+27\d{9}`) matches exactly `+27` followed by nine ASCII digits and nothing else: under whole-input matching `$` lets no final line terminator through |
| Validation.CheckUserName | src/main/java/Validation.java:16-22 | true exactly for a non-null username of one to five word characters that holds `_` |
| Validation.CheckPasswordComplexity | src/main/java/Validation.java:30-36 | true exactly for a non-null, single-line password of at least eight UTF-16 code units with a capital, a digit and a special character |
| Validation.CheckCellPhoneNumber | src/main/java/Validation.java:44-47 | true exactly for a non-null `+27` number with nine digits |
| Validation.UserNameExamples | src/main/java/Validation.java:16-22 | `user_` and `a_b` pass; `us_er_` (six characters), `user` (no underscore), the empty string and null fail |
| Validation.PasswordExampleAccepted | src/main/java/Validation.java:30-36 | `A1!aaaaa` passes |
| Validation.PasswordExampleWithoutLowercase | src/main/java/Validation.java:30-36 | a password needs no lower-case letter: `AAAAAAA1!` passes |
| Validation.ComplexPasswordWitness | src/main/java/Validation.java:30-36 | a single-line password of at least eight code units passes as soon as it holds a capital, a digit and a special character, wherever they are |
| Validation.PasswordLengthInCodeUnits | src/main/java/Validation.java:30-36 | `A1!aa😀a` passes: seven characters, but the emoji counts twice, so `length()` is eight |
| Validation.PasswordExamplesRejected | src/main/java/Validation.java:30-36 | `Short1!` (seven characters), `Password123` (no special character) and null fail |
| Validation.CellNumberExamples | src/main/java/Validation.java:44-47 | `+27123456789` passes; a local number, eight or ten digits after `+27`, and null fail |
| Validation.ReportIsTrimmed | src/main/java/Validation.java:95 | the final `trim()` never changes the report |
| Validation.RegisterUser | src/main/java/Validation.java:60-96 | the report is the username, password and cell sentences, each on its own line and each chosen by its own check, then the success sentence, or a blank line and the request to fix the errors |
| Validation.LinesOccur | src/main/java/Validation.java:70-93 | every line appended to the report, and the verdict, occurs in it |
| Validation.AbsentFromLines | src/main/java/Validation.java:70-93 | a single-line text that occurs in no line of a report does not occur in the report |
| Validation.RegisteredNotInUserNameLine | src/main/java/Validation.java:65-66 | neither username sentence contains "User registered successfully" |
| Validation.RegisteredNotInPasswordLine | src/main/java/Validation.java:73-74 | neither password sentence contains "User registered successfully" |
| Validation.RegisteredNotInCellLine | src/main/java/Validation.java:81-82 | neither cell sentence contains "User registered successfully" |
| Validation.RejectedReportLacksRegistered | src/main/java/Validation.java:89-93 | when some check fails, the report does not contain "User registered successfully" anywhere |
| Validation.AcceptedReportLacksFix | src/main/java/Validation.java:89-93 | when every check passes, the report does not ask to fix errors |
| Validation.AcceptedReportHasRegistered | src/main/java/Validation.java:89-90 | when every check passes, the report contains the success sentence |
| Validation.RejectedReportLacksRegisteredSentence | src/main/java/Validation.java:89-93 | when some check fails, neither the success sentence nor its stem occurs |
| Validation.RejectedReportHasFix | src/main/java/Validation.java:91-93 | when some check fails, the report asks to fix the errors |
| Validation.ReportAnnouncesSuccessIff | src/main/java/Validation.java:62-93 | the success sentence (and its stem) occurs in a report exactly when all three checks pass |
| Validation.ReportAsksForFixIff | src/main/java/Validation.java:62-93 | the request to fix the errors occurs in a report exactly when some check fails |
| Validation.RegistrationSucceedsIff | src/main/java/Validation.java:60-96 | `registerUser`'s result contains the success sentence, and the stem `register` looks for, exactly when username, password and number all pass |
| Validation.RegistrationFixIff | src/main/java/Validation.java:60-96 | `registerUser`'s result asks to fix the errors exactly when some field fails, so the two verdicts never appear together |
| Validation.RegistrationLines | src/main/java/Validation.java:65-86 | the report holds each field's own sentence, accepting or rejecting by that field's check alone |
| Validation.LoginStatusMeaning | src/main/java/Validation.java:106-118 | the status starts with the welcome exactly when the login succeeds; it is "Username does not exist." exactly for an unknown or null username; it is "Incorrect password." exactly for a known username with another password |
| Validation.LoginValidator.constructor | src/main/java/Validation.java:6 | before any attempt the status is empty |
| Validation.LoginValidator.LoginUser | src/main/java/Validation.java:106-118 | succeeds exactly when the username is a key and that account's password equals the given one, and records the status of that attempt |
| Validation.LoginValidator.ReturnLoginStatus | src/main/java/Validation.java:124-126 | returns the status of the last attempt |
| Messages.GenerateMessageID | src/main/java/Messages.java:41-48 | the id is exactly ten ASCII digits, whatever digits are drawn, so `checkMessageID` calls it not too short |
| Messages.CheckMessageID | src/main/java/Messages.java:55-57 | an id of ten or more characters is never too short, one of fewer than five always is, and an id without surrogate pairs is too short exactly when it has fewer than ten characters |
| Messages.MessageIdExamples | src/main/java/Messages.java:55-57 | `checkMessageID` is false for a ten-digit id, true for a five-digit one, and false for five emoji, which are ten code units |
| Messages.CheckRecipient | src/main/java/Messages.java:65-68 | the recipient check accepts exactly the numbers the registration cell check accepts: non-null, `+27` and nine digits |
| Messages.RecipientExamples | src/main/java/Messages.java:65-68 | `+27123456789` passes; a local number, eight or ten digits, `abc` and null fail |
| Messages.FirstWord | src/main/java/Messages.java:79-80 | the first word is the longest whitespace-free prefix of the text |
| Messages.LastWord | src/main/java/Messages.java:79-81 | the last word is a whitespace-free suffix of the text preceded by whitespace or the start |
| Messages.FirstWordUnique | src/main/java/Messages.java:79-80 | any maximal whitespace-free prefix is the first word |
| Messages.LastWordUnique | src/main/java/Messages.java:79-81 | any maximal whitespace-free suffix is the last word |
| Messages.TrimmedIsWordRun | src/main/java/Messages.java:79 | a trimmed text is empty or neither starts nor ends with `\s` |
| Messages.PickedWords | src/main/java/Messages.java:79-81 | on a trimmed text, `words[0]` and the last-or-first element that the hash picks are exactly its first and last words |
| Messages.PickedPieces | src/main/java/Messages.java:80-81 | the same for the pieces of a text that neither starts nor ends with `\s`, before any trailing empty piece is dropped |
| Messages.UpperHashFields | src/main/java/Messages.java:83 | upper-casing the hash text upper-cases the id prefix and the two words and leaves the colons and the number alone |
| Messages.DecimalNotLower | src/main/java/Messages.java:83 | the message number's decimal form has no lower-case letter |
| Messages.CreateMessageHash | src/main/java/Messages.java:78-84 | the hash is the upper-cased first two id characters, `:`, the message number, `:`, then the upper-cased first and last words of the trimmed text |
| Messages.HashOfBlankText | src/main/java/Messages.java:78-84 | an empty or blank text gives a hash ending in the second colon |
| Messages.HashOfOneWord | src/main/java/Messages.java:78-84 | a text with a single word after trimming carries that word twice, upper-cased |
| Messages.HashNumberField | src/main/java/Messages.java:83 | in a hash the two-character prefix is followed by a colon, the number, and a colon, and the number field parses back to the message number |
| Messages.HashOfSeveralWords | src/main/java/Messages.java:78-84 | for a text `first middle last` the hash carries only the first and last words, whatever lies between |
| Messages.HashExampleEmpty | src/main/java/Messages.java:78-84 | an empty text with id `EF…` and number 3 hashes to `EF:3:` |
| Messages.HashExampleBlank | src/main/java/Messages.java:78-84 | a text of three spaces with id `GH…` and number 4 hashes to `GH:4:` |
| Storage.JsonFile.Write | src/main/java/Messages.java:156-161 | after the write the file holds the value; when the writer cannot be opened the file keeps its old contents |
| Messages.Messages.constructor | src/main/java/Messages.java:31-35 | a new store holds exactly what the file holds (nothing for a missing file or `null` document), and its total counts it |
| Messages.Messages.SetTotalMessages | src/main/java/Messages.java:23-25 | the total becomes the given value and the list is untouched |
| Messages.Messages.ReturnTotalMessages | src/main/java/Messages.java:134-136 | returns the total |
| Messages.Messages.StoreMessage | src/main/java/Messages.java:145-150 | appends the entry at the end, adds one to the total with `int` wrap-around, and saves the whole list when the file can be written; a consistent total stays consistent below the `int` limit |
| Messages.Messages.WriteMessagesToJson | src/main/java/Messages.java:155-162 | the file holds the current list after the write; a writer that cannot be opened leaves the file as it was |
| Messages.Messages.LoadMessagesFromJson | src/main/java/Messages.java:168-186 | a document is appended to the list and the total becomes the list's length; a missing file or a `null` document changes nothing |
| Messages.StoreThenReload | src/main/java/Messages.java:145-186 | storing entries one by one and opening a new store on the same file gives back the same entries in order, with their count as the total |
| UserManager.FirstAccepted | src/main/java/UserManager.java:80-96 | the first of the first n login attempts that authenticates, or none when none of them does |
| UserManager.ValidationPasses | src/main/java/UserManager.java:46-52 | the report of `registerUser` contains the success stem exactly when the username, password and number are all well formed |
| UserManager.UserManager.constructor | src/main/java/UserManager.java:14-28 | a new manager holds the accounts in the file (none for a missing file or `null` document), with nobody logged in and an empty login status |
| UserManager.UserManager.Register | src/main/java/UserManager.java:35-71 | adds the account built from the five answers under its username, and saves, exactly when all three fields are well formed and the username is free; otherwise nothing changes; every new key is a well-formed username and keys stay equal to their accounts' usernames |
| UserManager.UserManager.Login | src/main/java/UserManager.java:77-102 | when nobody is logged in, logs in the account of the first of at most three attempts that authenticates, else nobody, and leaves the status of the last attempt made; when somebody is logged in, nothing changes |
| UserManager.UserManager.Logout | src/main/java/UserManager.java:108-115 | nobody is logged in afterwards and the accounts are unchanged |
| UserManager.UserManager.IsLoggedIn | src/main/java/UserManager.java:121-123 | true exactly when somebody is logged in |
| UserManager.UserManager.GetLoggedInUser | src/main/java/UserManager.java:129-131 | the logged-in account, or null |
| UserManager.UserManager.SaveUsers | src/main/java/UserManager.java:158-165 | the file holds the accounts after the write; a writer that cannot be opened leaves the file as it was |
| UserManager.UserManager.LoadUsers | src/main/java/UserManager.java:172-185 | the accounts become the file's document, or no accounts for a missing file or `null` document |
| UserManager.SaveThenReload | src/main/java/UserManager.java:26-28 | a manager created after another saved its accounts loads exactly those accounts, with nobody logged in |
| UserManager.NewManagerIsLoggedOut | src/main/java/UserManager.java:121-131 | on a new manager `isLoggedIn` is false and `getLoggedInUser` is null |
| UserManager.LogoutTwice | src/main/java/UserManager.java:108-115 | logging out twice leaves nobody logged in and the accounts unchanged, as once does |

## Left out

- Dialogs are not modelled. This covers `sentMessage`, `printMessages`, `viewProfile` and every informational or error dialog in `register`, `login`, `logout`, `saveUsers` and `writeMessagesToJson`. They only show text; the answers they return are parameters here.
- Main.java is not part of this model. It holds the menu, the message limit the user types in, the 250-character and 50-character checks on a message's length, and its own message counter.
- JSON text is not modelled. A file is the value last written into it, so Gson's encoding and malformed-JSON exceptions are absent. So is any read failure other than a missing file.
- `null` fields of a `MessageEntry` and `null` values in the accounts map read from a file are not modelled.
- `generateMessageID`'s distribution is not modelled; any digit may be drawn. The comments call the id and the hash unique (Main.java:66, Messages.java:71); the code does not guarantee it, and the model claims nothing about it.
- JavaLang.ToUpper: covers ASCII letters only. `toUpperCase` also maps other lower-case letters (e.g. `ß` to `SS`), which the hash of a non-ASCII text would show. The default locale is also assumed to have no special casing rules: under a Turkish or Azeri locale `toUpperCase` maps `i` to `İ`, where the model gives `I`.
- JavaLang.IsWhitespace: `\s` is the ASCII class of six characters, as in `split("\\s+")` without UNICODE_CHARACTER_CLASS. `trim` strips everything up to U+0020.
- Messages.CreateMessageHash: requires an id of at least two characters and a non-null text. The source throws on a shorter id or a `null` text, and the model has no exception path for them. The model also takes the first two characters of the id, whereas `substring(0, 2)` takes two UTF-16 code units. The two differ whenever either of the first two characters lies outside the Basic Multilingual Plane (Java then cuts a surrogate pair), and a single supplementary character is already two code units, so Java accepts such an id where the model's requires excludes it. `generateMessageID` produces only ASCII digits.
- Messages.CheckMessageID: the id is a non-null string. A `null` id makes `checkMessageID` throw `NullPointerException`, and the model has no exception path for it.
- Validation.PasswordExampleWithoutLowercase: the password is a parameter required to equal `AAAAAAA1!` rather than a literal in the postcondition; the statement is the same.
- UserManager.UserManager.Login: requires every stored account to have a password. A `null` stored password makes `loginUser` throw `NullPointerException`. Validation.LoginValidator.LoginUser has the same requirement for the account it looks up.
- Messages.Messages.constructor: requires a loaded document of at most `Integer.MAX_VALUE` entries, so `messages.size()` fits in the `int` total. Messages.Messages.LoadMessagesFromJson has the same bound on the list after loading.
- Messages.Messages.StoreMessage: keeps the total consistent with the list only below `Integer.MAX_VALUE` entries. Past that, the `int` wraps and the model says so through `Increment`.
- Messages.HashNumberField: stated on the shape that `CreateMessageHash`'s postcondition gives the hash, `prefix:number:tail`, rather than on the function call.
- Messages.HashExampleEmpty: the id is a parameter with `EF` as its first two characters rather than one fixed id. Messages.HashExampleBlank does the same with `GH`. The multi-word and one-word cases are covered for all inputs by Messages.HashOfSeveralWords and Messages.HashOfOneWord.
- `register` passes the answers it read and stores the answers as given, including `null` name or surname. Only the three checked fields are constrained.
- Write failures after the file is opened are not modelled. `new FileWriter` truncates the file as it opens it. An `IOException` while writing or closing is caught and leaves the file empty or partly written. A failure inside `gson.toJson` comes out as the unchecked `JsonIOException`, which the handlers do not catch. The model only covers a writer that cannot be opened, which leaves the file as it was.
- Concurrency, and two managers writing the same file in an interleaved way, are not modelled.
- Messages.StoreThenReload: holds under the file-as-value abstraction. `loadMessagesFromJson` reads the file with `Scanner.nextLine()` and joins the lines without a separator, so a U+0085 that Gson writes unescaped is lost (U+2028 and U+2029 are escaped). Characters the platform's default charset cannot encode come back as `?`. A `null` element of the decoded array is not modelled.
- UserManager.SaveThenReload: holds under the file-as-value abstraction. `FileWriter` and `FileReader` use the platform's default charset, so characters it cannot encode are not read back as written.
