# wordwarden spellcheck — a Dafny model

wordwarden's `spellcheck.py` prunes each file it is given
(inline code, code blocks, link targets and `https://` URLs are removed) and pipes what
is left through `aspell list`. It files each file as good (aspell printed
nothing but whitespace) or bad (with the words aspell printed). For every
bad file it prints the lines that contain a flagged word, with one line of
context on each side. The flagged words are highlighted in red, each line
is numbered, and a separator row stands between blocks that are not
adjacent. The script exits with 1 when some file is bad and with 0
otherwise.

This project models four parts of that program and proves properties of
each:

- `prune.dfy` (module `Prune`): the URL deletion
  `re.sub(r"https://[\S]*", "", …)` at the end of `prune_content`.
- `spellcheck.dfy` (module `Spellcheck`): the per-file loop of `main`. It
  covers the error checks in the order main meets them, the parsing of
  aspell's output into a word list, and the good/bad split. It also
  models the loop that reports each bad file through
  `print_words_context`, which can itself raise, and the exit code.
- `context.dfy` (module `Context`): `print_words_context`, as three
  imperative loops plus the assembly of the printed rows.
  - The first loop highlights the stored lines in place in an array.
  - The second loop collects the lines to print.
  - The third loop numbers those lines and places the separators.
- `text.dfy` (module `Text`): the parts of Python's `str` that these rely
  on. These are `isspace`/`\s`, `strip`, `split("\n")`, `in`, `replace`,
  `str(n)` and right-aligned padding.

`results.dfy` holds the `Result` type that error paths return.

The external programs (pandoc, aspell) are inputs. Each file comes with
one of three outcomes:

- pruning failed;
- aspell failed;
- aspell succeeded, together with the text it wrote.

Reading a file is replaced by its list of lines. Printing is replaced by
returned values: the `Printout` of `print_words_context` (its rows and the
highlighted lines), and `Render` for the exact text.

## Model

| member | source | states |
|---|---|---|
| Prune.StripUrls | spellcheck.py:276 | `re.sub(r"https://[\S]*", "", s)`. Scanning from the left, each `https://` is deleted together with the run of non-whitespace characters after it, and scanning resumes after the deleted token. Its properties are the `StripUrls*` lemmas. |
| Prune.StripUrlsToken | spellcheck.py:276 | `https://` followed by a whitespace-free token is deleted up to the next whitespace character or the end, and what follows is handled as if the token had never been there. |
| Prune.StripUrlsConcat | spellcheck.py:276 | Text that is empty or ends with whitespace is handled apart from what follows it: the deletion of the concatenation is the concatenation of the deletions. |
| Prune.StripUrlsFirst | spellcheck.py:276 | When the first `https://` of a text starts right after `a` (inside a word or not), `a` is kept unchanged, the match and its whitespace-free token are deleted, and the deletion goes on after the token. With `StripUrlsNoUrl` this fixes the output for every text. |
| Prune.StripUrlsRemovesAll | spellcheck.py:276 | The result never contains `https://`. |
| Prune.StripUrlsNoUrl | spellcheck.py:276 | Text without `https://` is returned unchanged. |
| Prune.StripUrlsIdempotent | spellcheck.py:276 | Applying the deletion twice gives the same as applying it once. |
| Prune.StripUrlsShortens | spellcheck.py:276 | The deletion never makes the text longer. |
| Prune.StripUrlsKeepsWordPrefix | spellcheck.py:276 | A whitespace-free prefix of the output is also a prefix of the input. |
| Prune.TokenEnd | spellcheck.py:276 | The `[\S]*` part of a match stops at the first whitespace character or at the end of the text. |
| Text.IsSpace | spellcheck.py:117 | The whitespace table of `str.isspace`, which `strip()` (spellcheck.py:117, 122) and the `\s`/`\S` classes of `re` (spellcheck.py:276) share: space, `\t` to `\r`, `\x1c` to `\x1f`, `\x85`, `\xa0`, U+1680, U+2000 to U+200A, U+2028, U+2029, U+202F, U+205F and U+3000. |
| Text.Strip | spellcheck.py:117 | `str.strip()`. The result is empty iff the input is all whitespace. Otherwise it neither starts nor ends with whitespace. Only whitespace surrounds it in the input. |
| Text.Split | spellcheck.py:122 | `split("\n")` always gives at least one piece, and no piece holds the separator. |
| Text.JoinSplit | spellcheck.py:122 | Joining the pieces of a split with the separator gives back the input. |
| Text.SplitJoin | spellcheck.py:122 | Splitting a join of separator-free pieces gives back the pieces. |
| Text.Contains | spellcheck.py:208 | Python's `word in line`: the word is a prefix of the line or of some suffix of it. |
| Text.ContainsAt | spellcheck.py:208 | Python's `word in line` holds iff the word occurs at some position (the empty word occurs everywhere). |
| Text.Replace | spellcheck.py:210 | `str.replace`: non-overlapping occurrences are replaced from the left, and an empty pattern inserts the replacement around every character. A string without the (non-empty) pattern comes back unchanged. When the pattern occurs, the replacement occurs in the result. |
| Text.ReplaceSplit | spellcheck.py:210 | `str.replace` replaces the leftmost occurrence first and then goes on after it: if `pat` first occurs in `a + pat + b` right after `a`, the result is `a`, then `rep`, then the replacement applied to `b`. |
| Text.Repeat | spellcheck.py:225 | `'-' * n`: exactly `n` characters, each of them the given one. |
| Text.Decimal | spellcheck.py:222 | `str(n)`: at least one digit, only digits, and no leading zero. |
| Text.DecimalRoundTrip | spellcheck.py:222 | Reading back the digits of `str(n)` gives `n`. |
| Text.DecimalLengthMonotone | spellcheck.py:222 | A larger number never has fewer digits. |
| Text.PadLeft | spellcheck.py:226 | `f"{n:{w}}"` for an int `n`, applied to `s = str(n)`: the value is right-aligned. It ends with `s`, only spaces precede it, and it is `w` long unless `s` is longer. |
| Spellcheck.FileError | spellcheck.py:78-116 | A file raises no error iff pruning and aspell succeeded and the dictionary argument is absent or names an existing file. Otherwise it raises the first error main would meet. |
| Spellcheck.WordList | spellcheck.py:122 | The output is cut into lines at every line break, with no line break left inside a line, and joining the lines with line breaks gives the output back. There is one word per line, and each word is its line stripped. |
| Spellcheck.WordListWords | spellcheck.py:122 | No flagged word contains a line break. A non-empty flagged word neither starts nor ends with whitespace. |
| Spellcheck.Check | spellcheck.py:117-130 | The record for one file: no words if the stripped output is empty, otherwise the word list of the stripped output. |
| Spellcheck.CheckBad | spellcheck.py:117-130 | A file is bad iff aspell's output holds a non-whitespace character. A bad file's word list is non-empty and its first word is non-empty. |
| Spellcheck.Records | spellcheck.py:117-130 | The record of each file, in input order, one per file. |
| Spellcheck.Classification | spellcheck.py:77-130 | The loop's result: the error of the first file that raises one, else each file's record appended to the good or the bad list. |
| Spellcheck.Classify | spellcheck.py:74-130 | The loop's result equals `Classification`: the first error raised, or the good and bad lists. |
| Spellcheck.ClassificationErrorStays | spellcheck.py:77-116 | After an error is raised, no later file changes the outcome. |
| Spellcheck.ClassificationFails | spellcheck.py:77-116 | The loop stops with an error iff some file raises one. |
| Spellcheck.ClassificationFirstError | spellcheck.py:77-116 | The error the loop stops with is the one raised by the first file that raises one. |
| Spellcheck.ClassificationPartitions | spellcheck.py:117-130 | If no error is raised, the good and bad lists interleave to the per-file records in input order. Every good record has no words and every bad record has some. |
| Spellcheck.InterleavingBad | spellcheck.py:117-130 | In such a split, the bad list is empty iff no record is bad. |
| Spellcheck.ReportError | spellcheck.py:155 | Reporting one bad file fails when its path cannot be read (spellcheck.py:199). It also fails when none of its flagged words occurs in any of its lines, which is the IndexError at spellcheck.py:221. |
| Spellcheck.Report | spellcheck.py:150-164 | The report loop's outcome: the error of the first bad file whose report fails, or none. |
| Spellcheck.ReportBadFiles | spellcheck.py:150-164 | The loop calls print_words_context on each bad file in order, and its result equals `Report`. |
| Spellcheck.ReportFirstError | spellcheck.py:150-164 | The report loop fails iff some bad file's report fails, and then with the error of the first such file. |
| Spellcheck.ExitCode | spellcheck.py:145-178 | The exit code is 0 or 1. |
| Spellcheck.ExitCodeRule | spellcheck.py:145-178 | The exit code is 1 iff aspell flagged something in some file. |
| Spellcheck.RunSpellcheck | spellcheck.py:60-178 | If some file raises an error in the per-file loop, main stops with the first such error. Otherwise it stops iff reporting some bad file fails, with the first such failure. When it returns, the value is 1 iff some file has flagged words and 0 iff none has. |
| Context.Wrap | spellcheck.py:210 | `f"{RED}{word}{RESET}"` with RED = `"\033[31m"` and RESET = `"\033[0m"` (spellcheck.py:27, 39). |
| Context.Highlight | spellcheck.py:205-211 | The stored form of one line: the words are applied in list order. A word that occurs in the original line has every occurrence replaced in the line built so far. |
| Context.HighlightUnchanged | spellcheck.py:204-211 | A line that contains no flagged word is stored unchanged. |
| Context.UnmarkWrapped | spellcheck.py:210 | Deleting the RED/RESET markers undoes highlighting of one word in a line without escape characters. This includes the empty word. |
| Context.HighlightWraps | spellcheck.py:208-210 | With a single flagged word that occurs in the line, the stored line contains the word wrapped in RED and RESET. |
| Context.HighlightOneWordReversible | spellcheck.py:204-211 | With a single flagged word, in a line and a word without escape characters, deleting the markers gives back the original line. |
| Context.HighlightLines | spellcheck.py:202-211 | Updates the array in place. Each stored line becomes its highlighted form, where each word found in the original line has every occurrence wrapped. A line index is collected iff some word occurs in the original line. |
| Context.ContextStep | spellcheck.py:213-219 | One step of the second loop: handling match line `m` adds `m`, plus `m-1` if `m > 0` and `m+1` if `m < len-1`. |
| Context.ContextLines | spellcheck.py:212-219 | A line is printed iff it is in the file and is a match line or next to one. |
| Context.Least | spellcheck.py:221 | Every non-empty set of line numbers has a least element. |
| Context.SortAscending | spellcheck.py:221-223 | `sorted(set)` lists exactly the set's elements, strictly ascending and therefore each once. |
| Context.RowsPrinted | spellcheck.py:221-228 | The numbered rows show exactly the given lines, in the given order, and the report ends with the last one. |
| Context.RowsLayout | spellcheck.py:221-228 | The report starts and ends with a numbered row. A separator stands exactly between two printed lines that are more than one apart, and never between adjacent ones. |
| Context.Rows | spellcheck.py:221-228 | The rows the third loop prints for an ascending list of lines: each line numbered, preceded by a separator when it lies more than one line after the previous printed line. |
| Context.NumberRows | spellcheck.py:221-228 | The third loop produces exactly `Rows(order)`. |
| Context.NearIsContext | spellcheck.py:213-219 | The lines gathered around the match lines are exactly the context lines. |
| Context.ContextHasMatch | spellcheck.py:213-219 | Every context line has a match line at most one away. |
| Context.PrintWordsContext | spellcheck.py:192-229 | Fails, as `sorted(set())[0]` does, iff no line contains a flagged word. Otherwise: every stored line is its highlighted form; the printed lines are strictly ascending and are exactly the context lines; separators are placed as in `RowsLayout`. |
| Context.LabelWidth | spellcheck.py:222 | `len(str(len(content_lines) + 1))`. |
| Context.Label | spellcheck.py:226 | `f"{print_line + 1:{width}}:"`. |
| Context.RenderRow | spellcheck.py:224-227 | The text of one row: a blue run of `width` dashes for a separator, or the blue label, a space and the stored line. |
| Context.Render | spellcheck.py:223-229 | Everything the function prints: the rows in order, then the empty line of the final `print()`. |
| Context.LabelFits | spellcheck.py:222-226 | The width `len(str(len + 1))` is at least the digit count of every 1-based label. Every label is `width + 1` characters long, and its digits read back as the line number. |

## Left out

- The pandoc and aspell subprocesses are not modelled. Their result is an input: a `PruningFailed` or `AspellFailed` outcome, or aspell's output text. The same holds for the existence check on a file in `prune_content`.
- BeautifulSoup's removal of `code` and `div.sourceCode` tags, its replacement of each link by its text, and the HTML serialisation, are not modelled. They belong to a library. `StripUrls` acts on whatever text that step produced.
- Reading files, `glob` expansion and `Path.exists` are not modelled. The paths and the result of the dictionary check are inputs. The file system is a map from each readable path to the lines `readlines()` returns for it.
- `wrap_print`/`textwrap` and the summary messages of `main` are not modelled. Neither is the printing of `set(misspelled_words)`, whose order Python leaves unspecified. The ANSI codes are the exact escape strings of spellcheck.py:27-39 that the report uses (RED, BLUE and RESET).
- argparse and `sys.exit` are not modelled. An exception leaves `main` as an `Err` result. The process exits with status 1 in every case: when a SpellcheckError is caught (spellcheck.py:336-338), and when an exception propagates uncaught. The uncaught ones are the IndexError at spellcheck.py:221 (`NoContext`) and the OSError or UnicodeDecodeError of `open()`/`readlines()` at spellcheck.py:199-200 (`Unreadable`).
- Context.Render: the exact terminal text, built from `Label` and `RenderRow`, is defined but has no lemma of its own beyond `LabelFits`.
- Context.HighlightOneWordReversible: reversibility is proved for one flagged word only, in a line and a word without escape characters. A line can hold ESC itself (a literal `\033[31m`, say), and deleting the markers then removes that text too. With several words, a later word can occur inside an earlier word's markers (in `[31m`, say). It is then replaced there too, so deleting the markers does not give the line back.
- Strings are sequences of Unicode scalar values. Python's handling of lone surrogates is not modelled.
- The lines of a file keep their trailing line break in the source (`readlines`). The model takes the lines as given and does not add or remove one.
