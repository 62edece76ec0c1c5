# seznam_slovnik `translate` command — a Dafny model

The `translate` command of the `seznam_slovnik` gem looks a word up in the Seznam
online Czech–English dictionary and prints the result in the terminal. This
project models the pure core of that command, `lib/seznam_slovnik/translate.rb`:

- **Request** (`request.dfy`). The `forceLang` flag is derived from the source
  language. The language pair is checked before any URL is built: one of source
  and target must be `"cz"`. Then the `URL` template is filled in with Ruby's
  `String#%`. The model
  of `String#%` covers the `%s`, `%d` and `%%` directives.
- **Normalizer** (`normalizer.dfy`). This is `clean_quick_meaning`: `strip`, then
  `gsub(/\s+/, " ")`, then `gsub(/\s,/, ",")`. Ruby's `\s` is the ASCII set
  {space, tab, line feed, vertical tab, form feed, carriage return}. `strip` also
  removes NUL at either end, as `String#strip` is documented to do. Each `gsub`
  is modelled as a left-to-right, non-overlapping replacement.
- **QuickMeanings** (`quick_meanings.dfy`). Every quick-meanings row is
  normalised (`map`) and the empty results are dropped (`reject(&:empty?)`).
- **Display** (`display.dfy`). This is the output of the eight `puts` calls. It is
  modelled two ways. `Screen` is the exact text, with `puts` adding a line feed
  unless one is already there. `Lines` is the list of printed lines when the title
  contains no line feed. A lemma shows that the two agree when the title contains
  no line feed; the quick definitions never contain one.
- **Translate** (`translate.dfy`). This is `call` as a whole. It takes the fetch as
  a function parameter, so the model can say what is and is not fetched. The
  result is the text written to standard output and the exit status.

## Model

| member | source | states |
|---|---|---|
| Normalizer.Strip | lib/seznam_slovnik/translate.rb:59 | the result has no whitespace or NUL at either end, and it is empty exactly when the input holds nothing else |
| Normalizer.StripSlice | lib/seznam_slovnik/translate.rb:59 | `strip` returns a contiguous slice of its input, and everything cut off on each side is whitespace or NUL |
| Normalizer.Collapse | lib/seznam_slovnik/translate.rb:60 | the result is empty only for empty input; its first and last characters are the input's, with whitespace turned into a space |
| Normalizer.CollapseSingleSpaced | lib/seznam_slovnik/translate.rb:60 | after `gsub(/\s+/, " ")` the only whitespace is the plain space and no two spaces are adjacent |
| Normalizer.CollapseVisible | lib/seznam_slovnik/translate.rb:60 | collapsing keeps every non-whitespace character in order and adds none |
| Normalizer.CollapseKeeps | lib/seznam_slovnik/translate.rb:60 | the result is exactly the input's characters that do not continue a whitespace run, in order, with each kept whitespace character written as a space: each maximal whitespace run becomes one space, and nothing else is removed or changed |
| Normalizer.FixCommas | lib/seznam_slovnik/translate.rb:61 | `gsub(/\s,/, ",")` keeps a first or last character that is not whitespace |
| Normalizer.FixCommasKeeps | lib/seznam_slovnik/translate.rb:61 | the result is exactly the input's characters, in order, minus each whitespace character that stands directly before a comma; every other character, spaces included, is kept unchanged |
| Normalizer.FixCommasVisible | lib/seznam_slovnik/translate.rb:61 | removing a space before a comma keeps every non-whitespace character in order |
| Normalizer.FixCommasClean | lib/seznam_slovnik/translate.rb:61 | on single-spaced text the result stays single-spaced and never has whitespace right before a comma |
| Normalizer.Normalize | lib/seznam_slovnik/translate.rb:56-63 | a row normalises to the empty text exactly when it holds only whitespace and NUL |
| Normalizer.NormalizeClean | lib/seznam_slovnik/translate.rb:57-61 | a normalised text has no edge whitespace, only single plain spaces, and no space before a comma |
| Normalizer.CleanIsFixed | lib/seznam_slovnik/translate.rb:57-61 | normalising a text of that shape returns it unchanged |
| Normalizer.NormalizeFixedIff | lib/seznam_slovnik/translate.rb:57-61 | a text is unchanged by normalisation if and only if it has that shape |
| Normalizer.NormalizeIdempotent | lib/seznam_slovnik/translate.rb:57-61 | normalising twice gives the same text as normalising once |
| Normalizer.NormalizeVisible | lib/seznam_slovnik/translate.rb:57-61 | for every input, the non-whitespace characters left after `strip` are kept in order and none is added |
| Normalizer.NormalizeKeepsVisible | lib/seznam_slovnik/translate.rb:57-61 | on text without NUL, normalisation keeps every non-whitespace character in order and adds none |
| QuickMeanings.NormalizeAll | lib/seznam_slovnik/translate.rb:42 | `map(&method(:clean_quick_meaning))` gives one text per row, in the same order, and text i is row i normalised |
| QuickMeanings.RejectEmpty | lib/seznam_slovnik/translate.rb:43 | `reject(&:empty?)` keeps no empty text and never lengthens the list |
| QuickMeanings.RejectEmptySelect | lib/seznam_slovnik/translate.rb:43 | the kept texts are exactly the non-empty ones, in their original order |
| QuickMeanings.QuickDefinitions | lib/seznam_slovnik/translate.rb:41-43 | there are at most as many definitions as rows, and none of them is empty |
| QuickMeanings.KeptRows | lib/seznam_slovnik/translate.rb:41-43 | the surviving rows, in increasing document order, are exactly the rows with a character other than whitespace and NUL |
| QuickMeanings.QuickDefinitionsSelect | lib/seznam_slovnik/translate.rb:41-43 | definition k is the normalised text of the k-th surviving row, and there is one definition per surviving row |
| QuickMeanings.QuickDefinitionsClean | lib/seznam_slovnik/translate.rb:41-43 | every quick definition is normalised text |
| Request.Digits | lib/seznam_slovnik/translate.rb:29 | `%d` writes at least one character, every character is a decimal digit, and there is no leading zero except for 0 itself |
| Request.DigitsRoundTrip | lib/seznam_slovnik/translate.rb:29 | reading the digits written by `%d` back gives the number |
| Request.Decimal | lib/seznam_slovnik/translate.rb:29 | `Integer#to_s` under `%d` writes at least one character, starts with a minus sign exactly for a negative number, and has no leading zero except for 0 itself |
| Request.DecimalRoundTrip | lib/seznam_slovnik/translate.rb:29 | after the sign only digits follow, and they read back as the number's magnitude |
| Request.ForceLang | lib/seznam_slovnik/translate.rb:21 | `force_lang` is 1 exactly when the source is `"cz"`, and 0 otherwise |
| Request.LookupUrl | lib/seznam_slovnik/translate.rb:20-29 | no URL exists exactly when neither language is `"cz"`; otherwise the URL is the site, source, `-`, target, `/?q=`, the encoded query, `&forceLang=` and the flag |
| Request.UrlTemplateText | lib/seznam_slovnik/translate.rb:13 | the template the model fills in is the `URL` constant, character for character |
| Request.Format | lib/seznam_slovnik/translate.rb:29 | no contract of its own: `String#%` for `%s`, `%d` and `%%`; its behaviour is stated by `FormatLiteral`, `FormatString`, `FormatInteger` and `UrlSubstitution` |
| Request.UrlSubstitution | lib/seznam_slovnik/translate.rb:13 | `String#%` on the `URL` template with four arguments succeeds and puts them in the template's four slots, in order |
| Request.FormatLiteral | lib/seznam_slovnik/translate.rb:13 | `String#%` copies template text without `%` unchanged |
| Request.FormatString | lib/seznam_slovnik/translate.rb:29 | `%s` puts the next string argument in place |
| Request.FormatInteger | lib/seznam_slovnik/translate.rb:29 | `%d` puts the next integer argument in place, in decimal |
| Request.UrlRoundTrip | lib/seznam_slovnik/translate.rb:13-29 | for the language codes the command offers (`cz`, `en`), the URL reads back as the source, the target, the encoded query and the flag it was built from |
| Display.Repeat | lib/seznam_slovnik/translate.rb:48-53 | `"c" * n` is n copies of c |
| Display.Puts | lib/seznam_slovnik/translate.rb:46-53 | `puts` writes the string and ends it with a line feed, adding one only when the string does not already end with one |
| Display.Separator | lib/seznam_slovnik/translate.rb:53 | the separator is a line feed, exactly `columns` dashes and a line feed |
| Display.Join | lib/seznam_slovnik/translate.rb:53 | no contract of its own: `Array#join`; `JoinIsBody` states what joining the definitions gives |
| Display.Screen | lib/seznam_slovnik/translate.rb:46-53 | the output of the eight `puts` calls opens with an empty line and ends with a line feed; `ScreenIsLines` states it line by line |
| Display.Body | lib/seznam_slovnik/translate.rb:53 | with n ≥ 1 definitions the body is 2n−1 lines, alternating the definitions in order with rules of `columns` dashes; with none it is one empty line |
| Display.BodyPairs | lib/seznam_slovnik/translate.rb:53 | body line 2k is definition k, and line 2k+1 is the dash rule after it |
| Display.Lines | lib/seznam_slovnik/translate.rb:46-53 | the printed lines in order: a blank line, the header, a `=` rule exactly as long as the header (title length + 13), a blank line, the label, a 17-character `=` rule as long as the label, a blank line, then definition k at line 7+2k with a rule of exactly `columns` dashes between each two definitions |
| Display.JoinIsBody | lib/seznam_slovnik/translate.rb:53 | the definitions joined by `"\n" + "-" * columns + "\n"`, plus the final line feed, are the body lines |
| Display.ScreenIsLines | lib/seznam_slovnik/translate.rb:46-53 | if the title and the definitions contain no line feed and no definition is empty, the printed text is the lines of `Lines`, each ended by a line feed |
| Translate.Call | lib/seznam_slovnik/translate.rb:19-54 | the exit status is 0 or 1; a pair without `"cz"` prints `Either source or target must be "cz"` and exits with 1 |
| Translate.PairCheckedBeforeFetch | lib/seznam_slovnik/translate.rb:24-27 | a pair without `"cz"` gives the same outcome whatever the fetch would return, so no URL is fetched |
| Translate.FetchesLookupUrl | lib/seznam_slovnik/translate.rb:29-36 | with an accepted pair, the outcome depends on the fetch only through the lookup URL; a failed fetch prints `Failed to get html: ` and the message, then exits with 1 |
| Translate.SuccessPrintsLines | lib/seznam_slovnik/translate.rb:38-53 | a successful fetch whose title has no line feed prints exactly the `Lines` of the title and the page's quick definitions, then exits with 0 |

## Left out

- The network fetch `open(url).read` (lines 30–36) is a function parameter `fetch`. Only its two outcomes are modelled: the page texts, or an error message.
- HTML parsing and the CSS selection of `#results h1` and of the quick-meanings table rows (lines 38–41) are not modelled. The fetch returns the title text and the rows' texts directly.
- `URI.encode_www_form_component` (line 22) is a function parameter `encode`. The URL round trip therefore gives back the encoded query, not the query.
- `colorize` (lines 47, 62) is taken as the identity. The colour codes it writes are not modelled. The emptiness test at line 43 is applied to colourised text. The model assumes that colourising the empty string gives the empty string.
- `IO.console.winsize` (line 45) is not modelled. `columns` is a natural-number parameter. A missing console, which would raise an error, is not modelled.
- The Hanami argument and option declarations (lines 10–17) and `register` (line 66) are not modelled. The model accepts any source and target strings, not only `cz` and `en`. The language codes matter only in `Request.UrlRoundTrip`, which requires them.
- Process termination by `exit` is not modelled as an effect. It is the `status` of the `Exit` value, and nothing is printed after it.
- `Request.Format` models only the `%s`, `%d` and `%%` directives of `String#%`. `%d` with a string argument is a failure here. Ruby would try to convert that argument to an integer.
- Normalizer.IsSpace: only the ASCII whitespace of Ruby's `\s` is modelled. That is also all that `\s` and `strip` match on UTF-8 strings.
- Normalizer.Strip: NUL is removed at both ends. This follows the documentation of `String#strip`. Ruby versions differ on whether a leading NUL is removed too.
