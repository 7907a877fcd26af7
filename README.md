# Scraping utilities: validators and text helpers

A Dafny model of the shared utility package of a web-scraping tutorial
collection: the string validators in `utils/validators.py` and the text and
header helpers in `utils/helpers.py`. The rest of the repository is scripts
that drive HTTP, HTML-parsing, browser and crawling libraries; none of it is
part of this model.

- `validators.dfy` (module `Validators`): `sanitize_filename` as three
  functions over `string` (delete the nine characters `< > : " / \ | ? *`,
  turn spaces into `_`, keep the first 255 characters), and `is_valid_email`.
  The regular expression `^[a-zA-Z0-9._%+-]+@[a-zA-Z0-9.-]+\.[a-zA-Z]{2,}$`
  is written out as a predicate (`MatchesEmailPattern`): the string splits at
  some `@` and some later `.` into a local run, a domain run and a run of at
  least two ASCII letters, optionally followed by one `\n` (Python's `$`
  without MULTILINE also matches before a final newline). `IsValidEmail`
  decides it by a scan that splits at the first `@` and the last `.`, and is
  proved to accept exactly the same strings.
- `helpers.dfy` (module `Helpers`): `str.splitlines` (with its full set of
  line boundaries and `\r\n` read as one), `str.strip` (with the whitespace
  set of `str.isspace`), `clean_text`, `safe_get_text` (the element is given
  as `Option<string>`, its text or `None`) and `get_headers` (a method that
  starts from the six default headers and overrides them with the caller's).
- `wrappers.dfy` (module `Wrappers`): the `Option` datatype.

Strings are sequences of Unicode scalar values, which is how Python `str`
indexes and slices, so the 255-character cut counts code points.

`clean_text` is modelled as the code behaves, not as the comment at
`utils/helpers.py:65` describes it: runs of spaces inside one line are kept
(`CleanTextKeepsInnerSpaces`); only whole blank lines disappear, and the
lines are joined with one space each.

## Model

| member | source | states |
|---|---|---|
| `Validators.RemoveInvalidChars` | utils/validators.py:50 | the result holds none of the nine invalid characters, only characters of the input, and is no longer than the input |
| `Validators.SpacesToUnderscores` | utils/validators.py:52 | same length; each position holds `_` where the input had a space and the input's character otherwise |
| `Validators.Cleaned` | utils/validators.py:50-52 | the name after deletion and space replacement: no longer than the input, without any of the nine characters or a space |
| `Validators.SanitizeFilename` | utils/validators.py:39-54 | at most 255 characters, none of them invalid or a space; a prefix of the cleaned name, equal to all of it when that is 255 characters or shorter and 255 long otherwise |
| `Validators.RemoveInvalidCharsAppend` | utils/validators.py:50 | deleting distributes over concatenation, so the kept characters keep their order |
| `Validators.CleanedAppend` | utils/validators.py:50-52 | the cleaned name of a concatenation is the concatenation of the cleaned names |
| `Validators.CleanedChar` | utils/validators.py:50-52 | a single character is deleted if invalid, becomes `_` if a space, and stays otherwise |
| `Validators.CleanedCounts` | utils/validators.py:50-52 | no other character changes: each character other than the nine, space and `_` occurs as often as in the input; `_` occurs as often as `_` and space together; the nine and space never occur |
| `Validators.SanitizeFilenameIdempotent` | utils/validators.py:50-54 | sanitising a sanitised name changes nothing |
| `Validators.MatchesEmailPattern` | utils/validators.py:36-37 | the reference definition of what the anchored pattern accepts: a split at some `@` and some later `.` into a local run, a domain run and two or more letters, the whole string or all but one final `\n` |
| `Validators.IsValidEmail` | utils/validators.py:26-37 | `is_valid_email`, decided by a scan; an accepted string has at least six characters, an `@` and a `.`; `IsValidEmailCorrect` proves it accepts exactly `MatchesEmailPattern` |
| `Validators.ScanEmailBodyCorrect` | utils/validators.py:36 | splitting at the first `@` and the last `.` accepts exactly the strings the pattern body matches as a whole |
| `Validators.IsValidEmailCorrect` | utils/validators.py:36-37 | `is_valid_email` holds exactly when the anchored pattern matches, i.e. on a full match or a full match followed by one `\n` |
| `Validators.ValidEmailOneAt` | utils/validators.py:36 | a valid address holds exactly one `@` |
| `Validators.ValidEmailLocalPart` | utils/validators.py:36 | before the `@` is a nonempty run over `[a-zA-Z0-9._%+-]` |
| `Validators.ValidEmailDomainPart` | utils/validators.py:36 | between the `@` and the last `.` is a nonempty run over `[a-zA-Z0-9.-]`; after the last `.` come at least two ASCII letters up to the end or a final `\n` |
| `Validators.TrailingNewline` | utils/validators.py:37 | the pattern followed by one `\n` is accepted exactly when the pattern matches the rest; two final newlines are never accepted |
| `Validators.ValidEmailEnd` | utils/validators.py:36-37 | nothing follows the top-level part: a valid address ends in a letter, or in a letter and one `\n` |
| `Validators.EmailFromParts` | utils/validators.py:36-37 | every local run, `@`, domain run, `.` and letter run of length two or more is accepted, with or without a final `\n` |
| `Helpers.SplitLines` | utils/helpers.py:66 | no line holds a line boundary; there are no lines exactly when the text is empty |
| `Helpers.SplitLinesCons` | utils/helpers.py:66 | a boundary-free line, its terminator (`\r\n`, or a single boundary not read as part of `\r\n`) and the rest split into that line followed by the lines of the rest |
| `Helpers.Strip` | utils/helpers.py:66 | the result neither starts nor ends with whitespace, and is the slice of the input left after cutting off leading and trailing whitespace |
| `Helpers.StripUnique` | utils/helpers.py:66 | whitespace, a trimmed middle and whitespace strip to that middle, so the slice is determined |
| `Helpers.StripAll` | utils/helpers.py:66 | the list comprehension: one stripped line per line, in the same order |
| `Helpers.NonEmptyOnly` | utils/helpers.py:67 | `filter(None, …)`: no longer than its input, every kept element is a nonempty element of the input, and every nonempty element is kept exactly as often as it occurs (the multiset of the input without `""`) |
| `Helpers.NonEmptyOnlyAppend` | utils/helpers.py:67 | filtering distributes over concatenation, so the kept elements keep their order |
| `Helpers.JoinWithSpace` | utils/helpers.py:67 | `' '.join`: empty for no parts; otherwise starts with the first part and is as long as all parts plus one separator per gap |
| `Helpers.JoinWithSpaceAppend` | utils/helpers.py:67 | the join of two nonempty lists is the two joins with one `' '` between them; with the join of one part being that part, this fixes the join of every list |
| `Helpers.CleanText` | utils/helpers.py:52-67 | `""` for empty input; the result holds no line boundary and neither starts nor ends with whitespace |
| `Helpers.CleanTextCons` | utils/helpers.py:66-67 | the result is the first line stripped, one space, then the cleaned rest; a blank line adds neither text nor a separator |
| `Helpers.CleanTextSingleLine` | utils/helpers.py:66-67 | on text without line boundaries the result is that text stripped |
| `Helpers.CleanTextKeepsInnerSpaces` | utils/helpers.py:65-67 | `clean_text("a  b")` is `"a  b"`: inner runs of spaces are not collapsed |
| `Helpers.CleanTextIdempotent` | utils/helpers.py:66-67 | cleaning cleaned text changes nothing |
| `Helpers.SafeGetText` | utils/helpers.py:85-98 | `default` defaults to `""`; the default when the element is absent; otherwise the cleaned text of the element, so an element with empty text gives `""` and not the default |
| `Helpers.SafeGetTextDefault` | utils/helpers.py:85-98 | with the default parameter left at `""`, an absent element gives `""`; a present one gives `clean_text` of its text |
| `Helpers.GetHeaders` | utils/helpers.py:28-50 | `custom` defaults to `None`; with no or empty custom headers exactly the defaults; otherwise every custom key maps to its custom value, default keys not overridden keep their default value, and the key set is defaults plus custom |
| `Helpers.DefaultHeaderNames` | utils/helpers.py:38-45 | the defaults are exactly six headers with the six names of the source |

## Left out

- `is_valid_url` and `extract_domain` (utils/validators.py:10-24, 56-70): they only call `urllib.parse.urlparse`, whose parsing rules are not part of this model.
- `rate_limit` (utils/helpers.py:11-26): a random delay and `time.sleep`.
- `safe_find` (utils/helpers.py:69-83): a call into BeautifulSoup's `find`.
- `save_to_file` (utils/helpers.py:100-111): file output.
- `SafeGetText`: the element's `get_text()` is a BeautifulSoup call, so the element is given by its text; a tag is always truthy, so only an absent element selects the default.
- `GetHeaders`: header names and values are strings and the dictionary is a map, so the insertion order of Python dictionaries is not modelled; a `custom_headers` argument that is not a dictionary is not modelled.
- `Strip`: the whitespace set of `str.isspace` is written out for the code points Python counts as whitespace; the general lemmas hold for any whitespace set, and only `CleanTextKeepsInnerSpaces` uses that `a` and `b` are not whitespace.
- Python strings may hold lone surrogate code points, which Dafny characters cannot; such strings are not modelled.
- The example scripts, the Scrapy project, the Selenium demo, `utils/config.py` and `utils/__init__.py`: library calls, printing, constants and re-exports.
