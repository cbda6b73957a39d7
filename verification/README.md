# Phrase expansion of the Wiktionary dictionary converter, in Dafny

This project models the core of the dictionary generator in
`dictionaries/generate`, and proves properties of that model.

**The converter** (`convert_enwiktionary.py`) reads a Wiktionary dump and works in stages:

1. It collects the words given for two languages inside each translation block. A block runs from a `{{trans-top|…}}` line to the `{{trans-bottom}}` line that closes it.
2. It cleans both sides of every word pair. Cleaning unwraps links, quotes and italics, drops unmatched brackets, pads slashes with spaces and collapses whitespace.
3. It expands every cleaned original phrase into the literal phrases it stands for:
   - a parenthesis attached to a word, as in `some(thing)`, is read both with and without its content;
   - a run of standalone parentheticals, as in `(ser) (un) puro nervio`, is read as every trailing part of the run;
   - `rojo / azul / verde` alternatives pick one word each.
4. It writes the distinct `(phrase, translation)` pairs as tab-separated lines. The lines are sorted by the original, then by the translation's word count and character count.

**The companion script** `sort.py` does three things:

1. It keeps the lines that are exactly one tab-separated pair.
2. It sorts them by the same key.
3. It drops every line equal to the line printed just before it.

**Modules, following the program's structure:**

| module | file | models |
|---|---|---|
| `Text` | `text.dfy` | Python's whitespace: `str.isspace`, `strip`, `split()`, `re.split(r"\s+")`, `re.sub(r"\s+", " ")`, `" ".join`, `s.split(sep)` and `normalize_space` |
| `Collation` | `collation.dfy` | Python's string order, `sorted(set(xs))`, and the `(original, word_count, char_count)` key both scripts sort by |
| `Brackets` | `brackets.dfy` | `remove_unmatched_brackets` |
| `Cleaner` | `cleaner.dfy` | `clean_phrase` after HTML entities are decoded, `wiki_to_text` and `extract_words`. Each regular expression is a hand-written scanner for that one pattern. |
| `Tokens` | `tokens.dfy` | `tokenize`, `is_parenthetical` and `is_attached_parenthetical` |
| `AttachedGroups` | `attached.dfy` | `process_attached_parenthetical`, and a description of its result for tokens `head(c1)a1(c2)a2…` |
| `Segments` | `segments.dfy` | `process_standalone_group`, the segment loop, `itertools.product`, and the intermediate phrases |
| `Slashes` | `slashes.dfy` | the slash loop of `generate_combinations` |
| `Combinations` | `combinations.dfy` | `generate_combinations` as a whole |
| `Blocks` | `blocks.dfy` | the translation-block reader of `process_file` |
| `Convert` | `convert.dfy` | the cleaning, expansion and `sort_key` sort of `process_file` |
| `LineSort` | `linesort.dfy` | `sort.py` |

The state machines run over immutable sequences as pure functions:

- the bracket scan;
- the tokenizer;
- the slash loop;
- the block reader;
- the line filter and repeat filter of `sort.py`.

Python sets are modelled by their contents only. The model claims nothing about their iteration order.

**Where the code and its written description differ, the model follows the code:**

- `remove_unmatched_brackets` uses one stack for all three bracket types. A closer is kept only when its own opener is on top of that stack. So `([)]` keeps only `[]`, and the kept brackets nest properly across types (`Brackets.RemoveUnmatched`). Independent stacks per type would keep all four characters.
- The filter in `process_standalone_group` says that empty options are dropped unless they are the only one. As written, it drops nothing: a non-empty run has at least two options. So `""` is always an option (`Segments.StandaloneKeepsEmpty`). This is what the cases in `run_tests` expect.

## Model

| member | source | states |
|---|---|---|
| Text.Strip | dictionaries/generate/convert_enwiktionary.py:82 | the result is a slice of the input with only whitespace removed at either end, and it starts and ends with a non-whitespace character |
| Text.Words | dictionaries/generate/convert_enwiktionary.py:163 | `split()` yields non-empty words without whitespace |
| Text.NormalizeSpace | dictionaries/generate/convert_enwiktionary.py:162-163 | `normalize_space` gives a trimmed, single-spaced text with the same words as its input, empty exactly when the input is blank |
| Text.WordsEmptyIffBlank | dictionaries/generate/convert_enwiktionary.py:91-93 | a text has no words exactly when it is all whitespace, the test `not phrase.strip()` |
| Text.StripEmptyIffBlank | dictionaries/generate/convert_enwiktionary.py:92 | `strip()` leaves nothing exactly when the text is all whitespace |
| Text.JoinWordsRoundTrip | dictionaries/generate/convert_enwiktionary.py:163 | splitting the single-spaced join of words gives those words back |
| Text.JoinIsNormal | dictionaries/generate/convert_enwiktionary.py:163 | joining words with single spaces gives a normal text |
| Text.NormalIsFixpoint | dictionaries/generate/convert_enwiktionary.py:193 | normalising a normal text changes nothing |
| Text.NormalIsStripped | dictionaries/generate/convert_enwiktionary.py:190-193 | stripping a normal text changes nothing |
| Text.CollapseSpace | dictionaries/generate/convert_enwiktionary.py:81 | `re.sub(r"\s+", " ", s)` keeps the words of `s` and leaves no two whitespace characters adjacent; the result is empty exactly when `s` is, and starts with whitespace exactly when `s` does |
| Text.CollapseThenStrip | dictionaries/generate/convert_enwiktionary.py:81-82 | collapsing whitespace runs and then stripping gives the normal form of the text |
| Text.SplitRuns | dictionaries/generate/convert_enwiktionary.py:201 | `re.split(r"\s+", s)` gives at least one piece and no piece holds whitespace; only the first and last pieces may be empty, and each is non-empty when `s` starts, or ends, with a non-whitespace character |
| Text.SplitRunsOfStripped | dictionaries/generate/convert_enwiktionary.py:201 | on a stripped, non-blank text, splitting at whitespace runs gives its words |
| Text.SplitRunsWords | dictionaries/generate/convert_enwiktionary.py:201 | the non-empty pieces of `re.split(r"\s+", s)` are exactly the words of `s`, in order |
| Text.CollapseKeepsFilter | dictionaries/generate/convert_enwiktionary.py:81 | collapsing whitespace runs keeps, in order, every character a filter rejecting whitespace keeps |
| Text.StripKeepsFilter | dictionaries/generate/convert_enwiktionary.py:82 | stripping keeps, in order, every character a filter rejecting whitespace keeps |
| Text.NormalizeKeepsFilter | dictionaries/generate/convert_enwiktionary.py:81-82 | collapsing and then stripping keeps, in order, every character a filter rejecting whitespace keeps |
| Text.WordsOfJoin | dictionaries/generate/convert_enwiktionary.py:156 | the words of `" ".join(parts)` are the words of the parts, in order |
| Text.SplitOn | dictionaries/generate/sort.py:13 | `split(sep)` gives one more piece than there are separators, no piece holds the separator, and joining the pieces with it gives the text back |
| Text.SplitOnTwo | dictionaries/generate/sort.py:21 | a text made of two separator-free parts around one separator splits into exactly those two parts |
| Text.StripOfTrimmed | dictionaries/generate/sort.py:12 | stripping a text without whitespace at its ends changes nothing |
| Collation.LessTotal | dictionaries/generate/convert_enwiktionary.py:232 | two different strings are ordered one way or the other |
| Collation.LessTransitive | dictionaries/generate/convert_enwiktionary.py:232 | Python's string order is transitive |
| Collation.LessIrreflexive | dictionaries/generate/convert_enwiktionary.py:232 | no string comes before itself |
| Collation.SortedSet | dictionaries/generate/convert_enwiktionary.py:231-232 | `sorted(set(xs))` is strictly ascending and holds exactly the elements of `xs` |
| Collation.Insert | dictionaries/generate/convert_enwiktionary.py:197-229 | adding to the set keeps the list ascending and adds exactly that element |
| Collation.AscendingUnique | dictionaries/generate/convert_enwiktionary.py:231-232 | an ascending list is determined by its elements, so the result does not depend on the order in which candidates were found |
| Collation.KeyLeTotal | dictionaries/generate/sort.py:20-27 | any two keys are comparable under tuple order |
| Collation.KeyLeTransitive | dictionaries/generate/sort.py:20-27 | tuple order on keys is transitive |
| Collation.KeyLeAntisymmetric | dictionaries/generate/sort.py:20-27 | keys that are each at most the other are equal |
| Brackets.OpenerOf | dictionaries/generate/convert_enwiktionary.py:51 | the `pairs` table maps each closer to an opener |
| Brackets.ScanValid | dictionaries/generate/convert_enwiktionary.py:55-66 | throughout the scan, the stack holds earlier openers in index order and only earlier closers are marked |
| Brackets.ScanKeepsEarlierMarks | dictionaries/generate/convert_enwiktionary.py:58-65 | the scan never revises its verdict on a position already read |
| Brackets.UnmatchedAreBrackets | dictionaries/generate/convert_enwiktionary.py:58-67 | only bracket characters are ever marked unmatched |
| Brackets.KeepDropsOnlyBrackets | dictionaries/generate/convert_enwiktionary.py:68 | the join over unmarked positions keeps every non-bracket character, in order |
| Brackets.KeptIsBalanced | dictionaries/generate/convert_enwiktionary.py:55-68 | the kept characters are balanced: every closer meets its own opener on top of one stack, and no opener is left |
| Brackets.RemoveUnmatched | dictionaries/generate/convert_enwiktionary.py:49-69 | `remove_unmatched_brackets` deletes bracket characters only, and what it keeps is balanced with types matched |
| Brackets.ScanOfBalanced | dictionaries/generate/convert_enwiktionary.py:58-66 | scanning the rest of a text whose brackets, after the pending openers, balance marks nothing more and ends with an empty stack |
| Brackets.RemoveUnmatchedFixpoint | dictionaries/generate/convert_enwiktionary.py:49-69 | a text is left unchanged if and only if its brackets are already balanced |
| Brackets.RemoveUnmatchedIdempotent | dictionaries/generate/convert_enwiktionary.py:49-69 | applying the function twice is the same as applying it once |
| Brackets.BalancedOnlyBrackets | dictionaries/generate/convert_enwiktionary.py:79-82 | whether a text is balanced depends on its bracket characters alone |
| Cleaner.LazyUntil | dictionaries/generate/convert_enwiktionary.py:76-78 | a found closing delimiter lies after the start and within the text |
| Cleaner.LazyUntilFinds | dictionaries/generate/convert_enwiktionary.py:76-78 | `.*?` stops at the first closing delimiter and never crosses a line feed; when nothing is found, no closing delimiter occurs before the next line feed |
| Cleaner.SubLazyOfPlain | dictionaries/generate/convert_enwiktionary.py:76-78 | a text without the opening delimiter's first character is left unchanged |
| Cleaner.SubLazyKeepsFilter | dictionaries/generate/convert_enwiktionary.py:76-78 | the substitution keeps, in order, every character that the delimiters do not contain |
| Cleaner.SubLazyUnwrap | dictionaries/generate/convert_enwiktionary.py:76-78 | one delimited span is replaced by its body |
| Cleaner.PadSlashes | dictionaries/generate/convert_enwiktionary.py:80 | every slash gains a space on each side; the length grows by two per slash |
| Cleaner.PadKeepsFilter | dictionaries/generate/convert_enwiktionary.py:80 | padding keeps, in order, every character other than spaces and slashes |
| Cleaner.CleaningKeepsBrackets | dictionaries/generate/convert_enwiktionary.py:80-82 | padding slashes, collapsing whitespace and stripping leave the brackets as they were |
| Cleaner.SlashWords | dictionaries/generate/convert_enwiktionary.py:80-82 | once every slash has whitespace on both sides, a word that contains a slash is the slash alone |
| Cleaner.CleanedIsBalanced | dictionaries/generate/convert_enwiktionary.py:79-82 | the steps after bracket removal keep the brackets balanced |
| Cleaner.UnwrapKeepsContent | dictionaries/generate/convert_enwiktionary.py:76-78 | the three unwrapping substitutions keep every content character, in order; a content character is not whitespace, a bracket, a quote or a slash |
| Cleaner.DropKeepsContent | dictionaries/generate/convert_enwiktionary.py:79 | removing unmatched brackets keeps every content character, in order |
| Cleaner.RemoveUnmatchedOfPlain | dictionaries/generate/convert_enwiktionary.py:49-69 | a text without brackets is left unchanged |
| Cleaner.CleanPhrase | dictionaries/generate/convert_enwiktionary.py:76-82 | the cleaned phrase is trimmed and single-spaced, has no unmatched bracket, and every slash in it is a word of its own (which characters it keeps: `Cleaner.CleanPhraseKeepsContent`) |
| Cleaner.CleanPhraseKeepsContent | dictionaries/generate/convert_enwiktionary.py:76-82 | the cleaned phrase holds exactly the content characters of the input, in order: cleaning deletes and inserts only whitespace, brackets, quotes and slashes |
| Cleaner.CleanPhraseOfPlain | dictionaries/generate/convert_enwiktionary.py:76-82 | on text without brackets, quotes or slashes, cleaning is exactly whitespace normalisation |
| Cleaner.SpanNoSquare | dictionaries/generate/convert_enwiktionary.py:28 | `[^\]\[]*` stops at the first square bracket |
| Cleaner.LinkAt | dictionaries/generate/convert_enwiktionary.py:28 | a link match lies within the text, with room for both delimiters |
| Cleaner.LinkText | dictionaries/generate/convert_enwiktionary.py:22-26 | `replace_link` gives the text after the last `|`, or the whole inner text when it has no `|` |
| Cleaner.WikiToTextNoLink | dictionaries/generate/convert_enwiktionary.py:28-29 | text without `[` passes `wiki_to_text` unchanged |
| Cleaner.WikiToTextLink | dictionaries/generate/convert_enwiktionary.py:18-29 | a single link becomes its display text |
| Cleaner.WikiToTextPlain | dictionaries/generate/convert_enwiktionary.py:28-29 | the text before the first `[` passes through unchanged, and the rest is converted on its own |
| Cleaner.WikiToTextLinkThen | dictionaries/generate/convert_enwiktionary.py:22-29 | a link at the front becomes its display text, and the rest is converted on its own |
| Cleaner.WikiToTextConcat | dictionaries/generate/convert_enwiktionary.py:18-29 | `x[[inner]]y`, with no `[` in `x`, converts to `x`, then the link's display text, then the conversion of `y` |
| Cleaner.TemplateAt | dictionaries/generate/convert_enwiktionary.py:35 | a template match starts after its four-character opening at the earliest, and lies within the text with room for the closing `}}` |
| Cleaner.TemplateAtOpen | dictionaries/generate/convert_enwiktionary.py:35 | `{{t|`, `{{t+|` or `{{t-|`, then text without `}` or a line feed, then `}}` matches with that text as the capture |
| Cleaner.FindTemplatesAt | dictionaries/generate/convert_enwiktionary.py:35-36 | each match contributes its capture, and the search resumes after its `}}` |
| Cleaner.FindTemplatesPlain | dictionaries/generate/convert_enwiktionary.py:35-36 | text before the first `{` contributes no match |
| Cleaner.FindTemplatesThen | dictionaries/generate/convert_enwiktionary.py:35-36 | a template at the front contributes its capture, followed by the matches in the rest |
| Cleaner.ParamWord | dictionaries/generate/convert_enwiktionary.py:42-44 | a parameter yields its stripped self, unless it is blank, when it yields nothing |
| Cleaner.TemplateWord | dictionaries/generate/convert_enwiktionary.py:39-44 | a template yields at most one word, which is non-empty, trimmed and free of `|` (which word: `Cleaner.TemplateWordChoice`) |
| Cleaner.TemplateWordChoice | dictionaries/generate/convert_enwiktionary.py:39-44 | a template yields nothing exactly when its link-converted text has fewer than two `|`-separated fields or a blank second field; otherwise it yields that field, stripped |
| Cleaner.ExtractWords | dictionaries/generate/convert_enwiktionary.py:32-46 | at most one word per template found; every word is non-empty, trimmed and free of `|` (which words, in order: `Cleaner.ExtractWordsThen` and `Cleaner.ExtractWordsPlain`) |
| Cleaner.ExtractWordsPlain | dictionaries/generate/convert_enwiktionary.py:32-46 | text before the first `{` adds no words |
| Cleaner.ExtractWordsThen | dictionaries/generate/convert_enwiktionary.py:32-46 | a template at the front adds its word, if any, before the words of the rest |
| Cleaner.TemplateWordOf | dictionaries/generate/convert_enwiktionary.py:39-44 | the parameters `lang\|word` yield the word |
| Cleaner.ExtractWordsOfTemplate | dictionaries/generate/convert_enwiktionary.py:32-46 | `{{t\|lang\|word}}` yields exactly `[word]` |
| Tokens.Scan | dictionaries/generate/convert_enwiktionary.py:101-116 | the scan emits only non-empty tokens |
| Tokens.ScanKeeps | dictionaries/generate/convert_enwiktionary.py:101-116 | resumed at any position with the characters kept so far, the scan yields exactly the characters of the whole text that are not whitespace at nesting level 0, in order; the level may go negative |
| Tokens.Tokenize | dictionaries/generate/convert_enwiktionary.py:96-118 | tokens are non-empty, and their concatenation is the input minus the whitespace met at level 0 |
| Tokens.TokenizeWithoutParens | dictionaries/generate/convert_enwiktionary.py:96-118 | without parentheses the tokens are the whitespace-separated words |
| Tokens.ScanWithoutSpace | dictionaries/generate/convert_enwiktionary.py:101-116 | without whitespace the scan never splits |
| Tokens.TokenizeWord | dictionaries/generate/convert_enwiktionary.py:96-118 | a text without whitespace is a single token |
| Tokens.ParentheticalNotAttached | dictionaries/generate/convert_enwiktionary.py:120-125 | a bare parenthetical is never classified as attached, and it holds both parentheses |
| AttachedGroups.Dedupe | dictionaries/generate/convert_enwiktionary.py:147 | `dict.fromkeys` keeps each value once and nothing else, keeps the first element first, and leaves a duplicate-free list as it is |
| AttachedGroups.DedupePrefix | dictionaries/generate/convert_enwiktionary.py:147 | a duplicate-free prefix of the list is also the prefix of the result, so those first occurrences keep their input order |
| AttachedGroups.DedupeTwo | dictionaries/generate/convert_enwiktionary.py:147 | two values are kept as they are unless they are equal |
| AttachedGroups.FirstParen | dictionaries/generate/convert_enwiktionary.py:130 | `[^()]*` stops at the first parenthesis |
| AttachedGroups.MatchAttached | dictionaries/generate/convert_enwiktionary.py:130-135 | the three parts of a match are together at least two characters shorter than the token, the two parentheses (their shape: `AttachedGroups.MatchAttachedSound`) |
| AttachedGroups.MatchAttachedSound | dictionaries/generate/convert_enwiktionary.py:130-135 | a match splits the token into a paren-free prefix and content around `(…)`, with the remainder as suffix less one final line feed |
| AttachedGroups.Trailing | dictionaries/generate/convert_enwiktionary.py:130 | `(.*)$` captures no line feed, and nothing longer than the rest of the token |
| AttachedGroups.TrailingSound | dictionaries/generate/convert_enwiktionary.py:130 | the capture of `(.*)$` is the rest of the token, or the rest less one final line feed |
| AttachedGroups.TrailingOf | dictionaries/generate/convert_enwiktionary.py:130 | text without a line feed is captured whole, with or without one final line feed after it |
| AttachedGroups.MatchAt | dictionaries/generate/convert_enwiktionary.py:130-135 | a token whose first parenthesis opens and whose next one closes, with a capturable rest, matches at exactly those positions |
| AttachedGroups.MatchAttachedComplete | dictionaries/generate/convert_enwiktionary.py:130 | any split of that shape is the one the match finds, so the match is unique |
| AttachedGroups.Alternatives | dictionaries/generate/convert_enwiktionary.py:127-147 | the result is non-empty and duplicate-free, is `[token]` when nothing matches, and uses only characters of the token; recursion shrinks the token |
| AttachedGroups.AlternativesStep | dictionaries/generate/convert_enwiktionary.py:135-144 | both recursive arguments are shorter than the token; the alternatives are those of the kept reading plus, when non-empty, those of the dropped reading |
| AttachedGroups.SplitShrinks | dictionaries/generate/convert_enwiktionary.py:137-140 | both reduced tokens are made of characters of the token |
| AttachedGroups.ReducedTokenDiffers | dictionaries/generate/convert_enwiktionary.py:141-144 | the `elif next_token` branch is dead: the reduced token never equals the token |
| AttachedGroups.MatchRendered | dictionaries/generate/convert_enwiktionary.py:130-135 | on `head(c1)a1(c2)a2…` the match splits at the first group |
| AttachedGroups.MatchReadings | dictionaries/generate/convert_enwiktionary.py:130-140 | on `head(c1)a1(c2)a2…` the two recursive arguments are the token with its first group kept, and dropped |
| AttachedGroups.ReductionsWellFormed | dictionaries/generate/convert_enwiktionary.py:137-140 | both recursive arguments are again tokens of the shape `head(c1)a1…` |
| AttachedGroups.Reductions | dictionaries/generate/convert_enwiktionary.py:135-144 | the two recursive arguments are tokens of the same shape with one group fewer; the alternatives are those of the reading keeping the first group plus, when non-empty, those of the reading dropping it |
| AttachedGroups.AlternativesSound | dictionaries/generate/convert_enwiktionary.py:127-147 | every alternative keeps or drops each group's content, and nothing else |
| AttachedGroups.AlternativesComplete | dictionaries/generate/convert_enwiktionary.py:127-147 | every non-empty way of keeping or dropping the contents is an alternative |
| AttachedGroups.AlternativesFirst | dictionaries/generate/convert_enwiktionary.py:137-147 | the first alternative keeps every content |
| AttachedGroups.AlternativesKeptFirst | dictionaries/generate/convert_enwiktionary.py:137-147 | the alternatives of the reading that keeps the content come first, in their own order: `results` is extended with them first and `dict.fromkeys` keeps first occurrences |
| AttachedGroups.AlternativesKeptPrefix | dictionaries/generate/convert_enwiktionary.py:137-147 | on `head(c1)a1(c2)a2…` the alternatives keeping the first group come first, in their own order |
| AttachedGroups.AlternativesOneGroup | dictionaries/generate/convert_enwiktionary.py:127-147 | `w(c)x` gives `[wcx, wx]`; with an empty content only `wx`; with nothing around the group only `c` |
| AttachedGroups.AlternativesOfPlainPair | dictionaries/generate/convert_enwiktionary.py:135-147 | when neither reading holds a group, the result is `[whole, next]`, or `[whole]` when `next` is empty or equal to `whole` |
| Segments.Contents | dictionaries/generate/convert_enwiktionary.py:153 | one content per parenthetical, the text between its parentheses |
| Segments.Suffixes | dictionaries/generate/convert_enwiktionary.py:154-157 | one option per start index, each holding the words of the contents from that index on, the last empty |
| Segments.KeepNonEmptyUnlessOnly | dictionaries/generate/convert_enwiktionary.py:158-160 | the filter keeps everything unless the options are exactly `[""]` |
| Segments.StandaloneGroup | dictionaries/generate/convert_enwiktionary.py:149-160 | an empty group gives `[""]`; n parentheticals give n+1 options, option i holding the words of contents i onward and the last being `""` |
| Segments.StandaloneKeepsEmpty | dictionaries/generate/convert_enwiktionary.py:158-160 | the empty option is always kept |
| Segments.StandaloneOptionWords | dictionaries/generate/convert_enwiktionary.py:153-157 | with normal, non-empty contents, option i is exactly the contents from i on joined by single spaces |
| Segments.RunLength | dictionaries/generate/convert_enwiktionary.py:176-181 | the inner loop takes the maximal run of standalone parentheticals |
| Segments.Collect | dictionaries/generate/convert_enwiktionary.py:168-186 | there are at most as many segments as tokens, and every segment is non-empty |
| Segments.CollectPlain | dictionaries/generate/convert_enwiktionary.py:183-186 | each paren-free token is a segment of its own |
| Segments.ProductSize | dictionaries/generate/convert_enwiktionary.py:189-191 | the number of combinations is the product of the segment sizes |
| Segments.ProductMembers | dictionaries/generate/convert_enwiktionary.py:189-191 | the product holds exactly the combinations picking one alternative per segment |
| Segments.ProductSingletons | dictionaries/generate/convert_enwiktionary.py:189-191 | one alternative per segment gives a single combination |
| Segments.Contribution | dictionaries/generate/convert_enwiktionary.py:189-194 | a combination contributes its normalised join, or nothing when the join is blank |
| Segments.IntermediatesSound | dictionaries/generate/convert_enwiktionary.py:189-194 | every intermediate phrase is the normalised join of a non-blank combination |
| Segments.IntermediatesComplete | dictionaries/generate/convert_enwiktionary.py:189-194 | every non-blank combination gives an intermediate phrase |
| Segments.IntermediatesNormal | dictionaries/generate/convert_enwiktionary.py:192-194 | every intermediate phrase is non-empty, trimmed and single-spaced |
| Slashes.SlashSegments | dictionaries/generate/convert_enwiktionary.py:201-225 | segments are non-empty, drawn from the words, and there is at least one when there is a word |
| Slashes.ScanShape | dictionaries/generate/convert_enwiktionary.py:206-225 | the loop only ever closes non-empty segments of input words |
| Slashes.ScanInGroup | dictionaries/generate/convert_enwiktionary.py:207-219 | inside `x / y / z` the loop collects the remaining alternatives and stops after the group |
| Slashes.ScanGroup | dictionaries/generate/convert_enwiktionary.py:206-222 | a whole written-out group becomes one segment |
| Slashes.ScanRendered | dictionaries/generate/convert_enwiktionary.py:206-225 | the loop reads back the groups written out after any prefix not ending in a slash |
| Slashes.SlashRoundTrip | dictionaries/generate/convert_enwiktionary.py:201-225 | writing groups out as `a / b c / d` and reading them back gives the groups |
| Slashes.SlashFree | dictionaries/generate/convert_enwiktionary.py:206-222 | without slashes every word is a segment of its own |
| Slashes.LoneSlash | dictionaries/generate/convert_enwiktionary.py:206-222 | a lone `/` is kept as a word |
| Slashes.TrailingSlash | dictionaries/generate/convert_enwiktionary.py:206-225 | a trailing `/` is dropped silently |
| Slashes.LeadingSlash | dictionaries/generate/convert_enwiktionary.py:206-213 | a leading `/` is dropped |
| Combinations.JoinAll | dictionaries/generate/convert_enwiktionary.py:228-229 | one normalised join per combination, in order |
| Combinations.GenerateCombinations | dictionaries/generate/convert_enwiktionary.py:87-233 | the result is strictly ascending, so duplicate-free, and blank input gives `[]` |
| Combinations.SplitWordsOfIntermediate | dictionaries/generate/convert_enwiktionary.py:201 | an intermediate phrase splits into its words |
| Combinations.FinalsMembers | dictionaries/generate/convert_enwiktionary.py:199-229 | an intermediate phrase's final phrases are exactly the normalised joins of one alternative per slash segment |
| Combinations.AllFinalsMembers | dictionaries/generate/convert_enwiktionary.py:197-229 | the set collects exactly the final phrases of all intermediate phrases |
| Combinations.GenerateMembers | dictionaries/generate/convert_enwiktionary.py:196-232 | for non-blank input, the results are exactly the final phrases of the intermediate phrases |
| Combinations.GenerateSound | dictionaries/generate/convert_enwiktionary.py:196-232 | every result is a final phrase of some intermediate phrase |
| Combinations.GenerateComplete | dictionaries/generate/convert_enwiktionary.py:196-232 | every final phrase of every intermediate phrase is a result |
| Combinations.IntermediateMembers | dictionaries/generate/convert_enwiktionary.py:166-194 | the intermediate phrases are exactly the normalised joins of the non-blank combinations of the token segments |
| Combinations.FinalsNormal | dictionaries/generate/convert_enwiktionary.py:228-229 | every final phrase is non-empty, trimmed and single-spaced |
| Combinations.GenerateNormal | dictionaries/generate/convert_enwiktionary.py:87-233 | every result is non-empty, trimmed and single-spaced |
| Combinations.PlainIntermediate | dictionaries/generate/convert_enwiktionary.py:166-194 | a non-blank phrase without parentheses has one intermediate phrase, itself normalised |
| Combinations.SortedSetOfOne | dictionaries/generate/convert_enwiktionary.py:231-232 | `sorted` of a one-element set is that element |
| Combinations.PlainPhrase | dictionaries/generate/convert_enwiktionary.py:166-233 | a non-blank phrase without parentheses or slash words expands to exactly its normalised self, e.g. `casa grande` |
| Combinations.SlashGroupsOf | dictionaries/generate/convert_enwiktionary.py:166-225 | a paren-free phrase written as slash groups reads back as those groups |
| Combinations.GenerateOfSingle | dictionaries/generate/convert_enwiktionary.py:196-232 | with one intermediate phrase, the results are its final phrases |
| Combinations.SlashPhrase | dictionaries/generate/convert_enwiktionary.py:166-233 | `w1 / … / wk` contributes exactly one `wi` to each result, and the slashes are not emitted, e.g. `rojo / azul / verde claro` |
| Combinations.FinalsOfWord | dictionaries/generate/convert_enwiktionary.py:199-229 | a word other than a lone slash is its own only final phrase |
| Combinations.AttachedSegments | dictionaries/generate/convert_enwiktionary.py:166-186 | `w(c)x` is one token with one segment: the word with and without `c` |
| Combinations.PicksOne | dictionaries/generate/convert_enwiktionary.py:188-191 | a combination of a single segment is one of its alternatives |
| Combinations.OneSegment | dictionaries/generate/convert_enwiktionary.py:188-194 | a phrase forming one segment of words has exactly those words as intermediate phrases |
| Combinations.OneSegmentOfWords | dictionaries/generate/convert_enwiktionary.py:188-232 | a phrase forming one segment of words, none a lone slash, expands to exactly those words |
| Combinations.AlternativeWords | dictionaries/generate/convert_enwiktionary.py:127-147 | both readings of `w(c)x` are single words |
| Combinations.AttachedToken | dictionaries/generate/convert_enwiktionary.py:123-147 | `w(c)x` is attached, not a bare parenthetical, and resolves to `[wcx, wx]` |
| Combinations.AttachedWord | dictionaries/generate/convert_enwiktionary.py:87-233 | the phrase `w(c)x` expands to exactly `wcx` and `wx` |
| Blocks.TrimLead | dictionaries/generate/convert_enwiktionary.py:281 | `lstrip("* :")` drops only leading `*`, space and `:` characters, and all of them |
| Text.IndexOf | dictionaries/generate/convert_enwiktionary.py:283 | `split(":", 1)` splits at the first colon: the index holds the colon and none comes before it |
| Blocks.Classify | dictionaries/generate/convert_enwiktionary.py:260-284 | an entry's language is the stripped text before the first colon, and holds no colon |
| Blocks.Cross | dictionaries/generate/convert_enwiktionary.py:269-271 | the nested loops pair every first-language word with every second-language word |
| Blocks.Classified | dictionaries/generate/convert_enwiktionary.py:255-260 | each line is classified after stripping |
| Blocks.OpenSnoc | dictionaries/generate/convert_enwiktionary.py:261-279 | a top marker opens a block; any marker ends the open one |
| Blocks.GatheredSnoc | dictionaries/generate/convert_enwiktionary.py:280-292 | each entry line adds its words to what the block gathered |
| Blocks.ProducedSnoc | dictionaries/generate/convert_enwiktionary.py:267-279 | a line adds pairs exactly when it is a bottom marker closing an open block |
| Blocks.StepKeepsInv | dictionaries/generate/convert_enwiktionary.py:260-292 | one turn of the loop keeps the state's description: pairs of closed blocks, and the words since the open top marker |
| Blocks.StepKeepsPairs | dictionaries/generate/convert_enwiktionary.py:267-279 | after one more line the pairs are exactly those of the closed blocks |
| Blocks.StepKeepsOpen | dictionaries/generate/convert_enwiktionary.py:261-279 | after one more line a block is open exactly when a top marker is the last marker read |
| Blocks.StepKeepsGathered | dictionaries/generate/convert_enwiktionary.py:280-292 | after one more line the word sets hold exactly the words gathered since the open top marker |
| Blocks.ReadInv | dictionaries/generate/convert_enwiktionary.py:255-292 | after any prefix of the dump the state holds exactly what the block description says |
| Blocks.ExtractPairsMembers | dictionaries/generate/convert_enwiktionary.py:255-292 | a pair is extracted if and only if a top marker and the bottom marker closing it enclose the first-language word and the second-language word; unclosed blocks and lines outside blocks contribute nothing |
| Blocks.GatheredSameLanguage | dictionaries/generate/convert_enwiktionary.py:285-292 | when both languages are the same, the `elif` branch never runs, so no second-language word is gathered |
| Blocks.SameLanguageNoPairs | dictionaries/generate/convert_enwiktionary.py:285-292 | naming the same language twice extracts no pairs, since the first branch takes every word |
| Convert.CleanedPairs | dictionaries/generate/convert_enwiktionary.py:304-310 | every original sent to the sort is a non-empty normal phrase, and every translation is normal |
| Convert.LeastKey | dictionaries/generate/convert_enwiktionary.py:314-320 | a non-empty set of pairs has a pair whose key is least |
| Convert.SortedOutputExists | dictionaries/generate/convert_enwiktionary.py:320 | every set of pairs can be listed once each in `sort_key` order |
| Convert.Written | dictionaries/generate/convert_enwiktionary.py:326-327 | one `original<TAB>translation` line per pair, in order |
| Convert.NormalHasNoTab | dictionaries/generate/convert_enwiktionary.py:81 | a cleaned text holds no tab |
| Convert.SortKeyOfLine | dictionaries/generate/convert_enwiktionary.py:314-318 | `sort_key` of a pair equals `key_func` of `sort.py` on its written line, and that line is one tab-separated pair |
| Convert.WrittenDiffer | dictionaries/generate/convert_enwiktionary.py:326-327 | different pairs are written as different lines |
| Convert.WrittenTrimmed | dictionaries/generate/convert_enwiktionary.py:327 | a written line with a non-empty translation has no whitespace at its ends |
| Convert.WrittenLines | dictionaries/generate/convert_enwiktionary.py:314-327 | each written line is trimmed, valid for `sort.py`, and keyed as its pair |
| Convert.WrittenSorted | dictionaries/generate/convert_enwiktionary.py:320-327 | the written lines are already in `sort.py` order, and no line equals the next |
| Convert.SortAfterConvert | dictionaries/generate/convert_enwiktionary.py:320-327 | `sort.py` prints the converter's output unchanged and rejects nothing, when no translation cleaned to nothing |
| Convert.EmptyTranslationRejected | dictionaries/generate/convert_enwiktionary.py:327 | a pair whose translation cleaned to nothing is written as `original<TAB>`, which `sort.py` strips and rejects |
| LineSort.Stripped | dictionaries/generate/sort.py:11-12 | each line is stripped, in order |
| LineSort.Kept | dictionaries/generate/sort.py:10-15 | only lines with exactly one tab are kept |
| LineSort.Rejected | dictionaries/generate/sort.py:16-17 | only lines without exactly one tab are rejected |
| LineSort.FilterPartition | dictionaries/generate/sort.py:10-17 | every stripped line lands in exactly one of the two outputs, repeats counted |
| LineSort.KeptAllValid | dictionaries/generate/sort.py:13-15 | nothing is dropped from valid lines |
| LineSort.RejectedNone | dictionaries/generate/sort.py:13-17 | valid lines are never rejected |
| LineSort.ValidIsTwoFields | dictionaries/generate/sort.py:13-14 | a line has exactly one tab if and only if `split("\t")` gives two fields, and the key reads those fields |
| LineSort.KeyOfFields | dictionaries/generate/sort.py:20-24 | the key of `original<TAB>translation` is the original, the translation's word count, and its length |
| LineSort.StripIdempotent | dictionaries/generate/sort.py:21 | `key_func` stripping again changes nothing |
| LineSort.StrippedUnchanged | dictionaries/generate/sort.py:11-12 | trimmed lines are not changed by stripping |
| LineSort.BeforeTotal | dictionaries/generate/sort.py:27 | any two valid lines are ordered by key one way or the other |
| LineSort.BeforeTransitive | dictionaries/generate/sort.py:27 | ordering by key is transitive |
| LineSort.BeforeAntisymmetric | dictionaries/generate/sort.py:27 | with ties broken by the line, the order is antisymmetric |
| LineSort.InsertBy | dictionaries/generate/sort.py:27 | insertion keeps the lines, adds the new one, and keeps key order |
| LineSort.SortBy | dictionaries/generate/sort.py:27 | the sort permutes the lines into key order |
| LineSort.SortedIsOrdered | dictionaries/generate/sort.py:27 | order between neighbours gives order between any two lines |
| LineSort.SortSorted | dictionaries/generate/sort.py:27 | the stable sort leaves lines already in key order where they are |
| LineSort.InsertOfKey | dictionaries/generate/sort.py:27 | inserting a line puts it in front of the lines that share its key, and leaves the lines of each other key in their order |
| LineSort.SortStable | dictionaries/generate/sort.py:27 | `sorted` is stable: for every key, the lines with that key come out in their input order, whatever the other lines are |
| LineSort.SortEqualKeys | dictionaries/generate/sort.py:27 | when every line has the same key, the sort leaves the lines as they are |
| LineSort.DropRepeats | dictionaries/generate/sort.py:29-34 | no printed line equals the next one or `prev_line`; every printed line is an input line, and every input line other than `prev_line` is printed (which occurrences: `LineSort.DropRepeatsSelects`) |
| LineSort.DropRepeatsSelects | dictionaries/generate/sort.py:30-34 | the printed lines are exactly the input lines that differ from the line just before them (`prev_line` before the first), in input order |
| LineSort.DropRepeatsOrdered | dictionaries/generate/sort.py:29-34 | dropping repeats keeps key order |
| LineSort.DropRepeatsOfFresh | dictionaries/generate/sort.py:29-34 | without adjacent repeats nothing is dropped |
| LineSort.SortFile | dictionaries/generate/sort.py:10-34 | rejected lines are those without exactly one tab, and no printed line equals the next |
| LineSort.SortFileMembers | dictionaries/generate/sort.py:10-34 | a line is printed if and only if it is a valid stripped input line |
| LineSort.SortFileOrdered | dictionaries/generate/sort.py:19-34 | the printed lines are in non-decreasing key order |
| LineSort.SortedPasses | dictionaries/generate/sort.py:26-34 | sorted lines without adjacent repeats pass the sort and the filter unchanged |
| LineSort.SortFileOfSorted | dictionaries/generate/sort.py:10-34 | trimmed valid lines in key order without adjacent repeats are printed as they are, and nothing is rejected |
| LineSort.StripTrimmed | dictionaries/generate/sort.py:12 | a stripped line has no whitespace at its ends |
| LineSort.SortFileIdempotent | dictionaries/generate/sort.py:10-34 | running `sort.py` on its own output changes nothing |
| LineSort.OneWordLine | dictionaries/generate/sort.py:20-24 | a line with a one-word translation is keyed by the original, 1, and the word's length |
| LineSort.OneWordLinesTie | dictionaries/generate/sort.py:20-24 | one-word translations of equal length tie |
| LineSort.TiedRunUnchanged | dictionaries/generate/sort.py:27-34 | tied lines without adjacent repeats are printed in input order |
| LineSort.TiedTriple | dictionaries/generate/sort.py:27-34 | tied different lines `a, b, a` pass the sort and the filter unchanged |
| LineSort.SortFileRepeatsLine | dictionaries/generate/sort.py:29-34 | as written, `a, b, a` with tied keys prints `a` twice |
| LineSort.ExampleLines | dictionaries/generate/sort.py:20-24 | the example lines are trimmed, differ, and are one-word translations |
| LineSort.SortFileRepeatsExample | dictionaries/generate/sort.py:29-34 | as written, the input `a<TAB>bc`, `a<TAB>de`, `a<TAB>bc` prints `a<TAB>bc` twice |
| LineSort.OrderedDistinct | dictionaries/generate/sort.py:29-34 | in an order with ties broken by the line, no adjacent repeats means no repeats at all |
| LineSort.SortFileUnique | dictionaries/generate/sort.py:10-34 | corrected program: all printed lines are distinct, and rejected lines are invalid |
| LineSort.SortFileUniqueAgrees | dictionaries/generate/sort.py:10-34 | the corrected program prints the same lines as the original, in key order |

## Left out

- `html.unescape` (`convert_enwiktionary.py:75`) uses a large entity table. `Cleaner.CleanPhrase` starts from the already unescaped text, and the converter stage applies it directly.
- The Python regular-expression engine. Each pattern the core uses (lines 28, 35, 76-78, 121, 130 and 201) is a scanner written for that pattern. Line feeds are handled as `.` and `$` treat them.
- File reading and writing, `try`/`except`, `sys.exit`, logging, argument handling, and the progress counter. The dump and `sort.py`'s input are sequences of lines with their line ends already removed. `sort.py`'s two output streams are the two fields of `LineSort.Outcome`.
- Python set iteration order:
  - the pairs of one block are emitted in that order;
  - `sorted(set(...), key=sort_key)` leaves pairs with equal keys in that order.
  The model keeps pairs as sets. `Convert.SortedOutput` accepts any order among equal keys.
- `run_tests` and the `__main__` dispatch. Its cases for plain, slash and single-group phrases are proved in general form by `Combinations.PlainPhrase`, `Combinations.SlashPhrase` and `Combinations.AttachedWord`. Only these cases are proved.
- Combinations.IntermediatePhrases: has no contract of its own. Its members are characterised by `Combinations.IntermediateMembers` and `Segments.IntermediatesNormal`.
- Blocks.ExtractPairs: has no contract of its own. Its members are characterised by `Blocks.ExtractPairsMembers`.
- Convert.SortedOutput: describes every order `sorted` may produce. It does not choose the one a given Python run would produce.
- LineSort.KeyOf: reads the line stripped once, not twice. `key_func` strips a line `sort.py` already stripped, which changes nothing (`LineSort.StripIdempotent`).
- Combinations.PlainPhrase: asks that no word of the phrase is a lone `/`. This is weaker than asking for no `/` character at all. A `/` inside a word, such as `a/b`, is an ordinary character to `generate_combinations`.

## Findings

| source | as written | input that shows it | evidently intended | confidence | as-written member | corrected member |
|---|---|---|---|---|---|---|
| dictionaries/generate/sort.py:27-34 | lines with equal keys stay in input order, and only a line equal to the one printed just before it is dropped | `a<TAB>bc`, `a<TAB>de`, `a<TAB>bc`: all three keys are `("a", 1, 2)`, so `a<TAB>bc` is printed twice | "print unique lines": every line printed once | high; not executed | LineSort.SortFileRepeatsExample | LineSort.SortFileUnique |

The corrected program breaks ties between equal keys by the whole line. Equal lines then become neighbours, and the repeat filter drops every repeat (`LineSort.SortFileUnique`). It prints the same lines as the original, still in key order (`LineSort.SortFileUniqueAgrees`).
