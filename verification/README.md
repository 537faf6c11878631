# Storytelling backend, modelled in Dafny

The storytelling backend turns books into narrated, subtitled audio. This
project models its decision-making core:

- **Scripts.** Chapter files are cleaned, collected and sorted in natural
  order. Over-long chapters are split into chunks of paragraphs. Summaries
  and generation runs are planned. A generated script is tidied, and tags
  are embedded for speech synthesis. A narrator voice is chosen.
- **Alignment and subtitles.** A transcript is tokenized and aligned word
  by word against a forced-aligner TextGrid by a Levenshtein aligner. The
  timings are propagated to unaligned tokens. Word-level and sentence-level
  SRT files are written, with both the rounding and the truncating
  timestamp formatters.
- **Subtitle tools.** The SRT readers, the playback renderer, the terminal
  key decoder and the timeline viewer.
- **Command-line status.** The chapter status scan and the chapter-selection
  parser.
- **Server.** Range requests over chapter audio, the Cloud Storage
  mirror's bookkeeping, and the translation and explanation services with
  their least-recently-used caches. The task manager's request checks and
  listings.
- **Maintenance tools.** The book-renaming tool and the archived podcast
  generator's length planning.

Each source module becomes one Dafny module. Pure logic is modelled as
functions and lemmas. Loops and state changes are modelled as methods with
loop invariants. The two caches and the terminal key listener are classes
whose methods update their fields. Python's `dict` is modelled as an
insertion-ordered list of entries (`OrderedDicts`), and configuration and
JSON values as `PyValues.Value`. Functions that return `None` or raise are
modelled with `Option` and `Result`. Work on files, the network, language
models and speech synthesis is not modelled: what it would read arrives as
a parameter, and what it would write is returned.

## Model

| member | source | states |
|---|---|---|
| AlignAudio.Spoken | whisperx_alignment_test/scripts/align_audio.py:182-187 | the words that get a block are exactly the non-blank ones, stripped, in order |
| AlignAudio.SpokenAppend | whisperx_alignment_test/scripts/align_audio.py:181-187 | keeping words distributes over concatenation: no word's fate depends on its segment or neighbours |
| AlignAudio.SpokenOne | whisperx_alignment_test/scripts/align_audio.py:187 | a blank word gives no block, any other word exactly one |
| AlignAudio.BlocksAt | whisperx_alignment_test/scripts/align_audio.py:179-191 | the k-th block is numbered k + 1 and shows the k-th kept word with its start and end |
| AlignAudio.WritesAt | whisperx_alignment_test/scripts/align_audio.py:188-190 | the three writes of the k-th block sit at positions 3k, 3k+1, 3k+2 of the output |
| AlignAudio.BlockShape | whisperx_alignment_test/scripts/align_audio.py:188-191 | every block is an ordinal line, a `start --> end` line and the word followed by a blank line |
| AlignAudio.WordStep | whisperx_alignment_test/scripts/align_audio.py:183-191 | one more word adds its block, numbered next, when it is not blank, and nothing otherwise |
| AlignAudio.WriteBlock | whisperx_alignment_test/scripts/align_audio.py:188-190 | the three writes of one block are its ordinal, its time line and its word |
| AlignAudio.WriteWord | whisperx_alignment_test/scripts/align_audio.py:183-191 | a non-blank word appends its block and advances the counter; a blank one changes nothing |
| AlignAudio.WriteSegment | whisperx_alignment_test/scripts/align_audio.py:182-191 | the inner loop writes the blocks of the segment's kept words, numbered on from the counter |
| AlignAudio.GenerateSrt | whisperx_alignment_test/scripts/align_audio.py:168-191 | the whole output is the blocks of all kept words of all segments, numbered from 1 |
| Aligner.FillBorders | alignment/mfa.py:240-245 | `dp[i][0] = i`, `dp[0][j] = j`, with deletions down the first column and insertions along the first row |
| Aligner.FillRow | alignment/mfa.py:248-261 | after row i every cell holds the cost and move the comparisons choose |
| Aligner.SetCell | alignment/mfa.py:260-261 | one cell is written and every other cell is left unchanged |
| Aligner.BestMove | alignment/mfa.py:249-259 | the substitution first, a strictly cheaper deletion next, a strictly cheaper insertion last; the cost is the minimum of the three |
| Aligner.TraceBack | alignment/mfa.py:265-273 | each backtrace step moves to one of the three neighbours and emits the pair of that move |
| Aligner.Backtrace | alignment/mfa.py:263-276 | the backtrace from (n, m) to (0, 0), reversed, is the trace the table records |
| Aligner.AlignSequences | alignment/mfa.py:231-277 | the result is the recorded trace of the filled tables, and it is an alignment of the two word lists |
| Aligner.AlignIsAlignment | alignment/mfa.py:263-277 | every reference index and every hypothesis index occurs in exactly one pair, in increasing order, and no pair is `(None, None)` |
| Aligner.TraceMonotone | alignment/mfa.py:263-276 | present reference indices and present hypothesis indices strictly increase along the result |
| Aligner.TraceCost | alignment/mfa.py:248-276 | `dp[n][m]` is the number of mismatched and gap pairs on the backtrace |
| Aligner.CostIsOptimal | alignment/mfa.py:248-261 | no alignment of the first i and j words costs less than `dp[i][j]` |
| Aligner.CostBounds | alignment/mfa.py:249-259 | a cell costs no more than each of the three ways into it |
| Aligner.AlignIsOptimal | alignment/mfa.py:231-277 | the aligner's output is a cheapest alignment of the two lists |
| Aligner.IdenticalInputsAlignDiagonally | mfa_lab/textgrid_to_srt.py:69-116 | identical inputs align pair by pair, `(i, i)` |
| Aligner.TieBreakExample | alignment/mfa.py:252-259 | on a tie the diagonal move is kept over a deletion, so the earlier repeated word is left unmatched |
| AlignmentWords.FloatOr | whisperx_alignment_test/scripts/sentence_segmenter.py:348-349 | `x or default` on a float: a missing value and 0.0 both give the default |
| AlignmentWords.Convert | whisperx_alignment_test/scripts/sentence_segmenter.py:345-352 | a blank word is skipped; otherwise the stripped text, the start (0 when absent) and an end never before the start |
| AlignmentWords.KeptClean | whisperx_alignment_test/scripts/sentence_segmenter.py:344-352 | every kept word has non-blank trimmed text and an end not before its start |
| AlignmentWords.CollectedClean | whisperx_alignment_test/scripts/sentence_segmenter.py:343-352 | every word collected from every segment is clean |
| AlignmentWords.InsertByKeyTied | whisperx_alignment_test/scripts/sentence_segmenter.py:353 | inserting a word adds it behind the words with its key and leaves every other key's words in order |
| AlignmentWords.InsertionSortedPermutes | whisperx_alignment_test/scripts/sentence_segmenter.py:353 | the sort keeps exactly the words it was given |
| AlignmentWords.InsertionSortedSorted | whisperx_alignment_test/scripts/sentence_segmenter.py:353 | the sort orders the words by `(start, end)` |
| AlignmentWords.InsertionSortedStable | whisperx_alignment_test/scripts/sentence_segmenter.py:353 | the sort is stable: the words of each key keep their order |
| AlignmentWords.SortWords | whisperx_alignment_test/scripts/sentence_segmenter.py:353 | the array is sorted by `(start, end)` in place, a permutation of its old contents, and stable |
| AlignmentWords.Insert | whisperx_alignment_test/scripts/sentence_segmenter.py:353 | one pass puts `a[i]` into the prefix where a stable insertion puts it and leaves the rest |
| AlignmentWords.KeepWords | whisperx_alignment_test/scripts/sentence_segmenter.py:344-352 | the inner loop keeps the converted non-blank words of one segment, in order |
| AlignmentWords.CollectWords | whisperx_alignment_test/scripts/sentence_segmenter.py:343-352 | the outer loop concatenates the kept words of every segment |
| AlignmentWords.FlattenAlignmentWords | whisperx_alignment_test/scripts/sentence_segmenter.py:340-354 | the result is a stable sort by `(start, end)` of the collected words, and every word is clean |
| ChapterText.RStripped | preprocess_chapters.py:37 | `[line.rstrip() for line in lines]`: one right-stripped line per line, each with no trailing whitespace |
| ChapterText.TidyParagraphs | preprocess_chapters.py:38-45 | dropping the final blank line keeps paragraph form and leaves a non-blank last line |
| ChapterText.StripJoin | preprocess_chapters.py:45 | the final `strip()` of `clean_text` only drops a trailing blank line |
| ChapterText.CleanLines | preprocess_chapters.py:37-45 | the lines `clean_text` joins are in paragraph form (stripped, no two blank lines in a row, none first) and the last one is not blank |
| ChapterText.CleanedText | preprocess_chapters.py:36-45 | the lines of the cleaned text are in paragraph form and the last one is not blank |
| ChapterText.CleanText | preprocess_chapters.py:36-45 | the loop over the right-stripped lines computes the cleaned text |
| ChapterText.CollapseLines | preprocess_chapters.py:38-44 | the loop keeps each non-blank line stripped and turns each run of blank lines after a non-blank line into one empty line, as `Collapse` specifies |
| ChapterText.CleanedJoin | preprocess_chapters.py:45 | the final strip of the joined lines only drops a trailing blank line, giving the cleaned text |
| ChapterText.SplitlinesJoin | preprocess_chapters.py:37-45 | lines without line boundaries and with a non-blank last line, joined and split again, come back unchanged |
| ChapterText.CollapseFixed | preprocess_chapters.py:38-44 | lines already in paragraph form collapse to themselves |
| ChapterText.CleanTextIdempotent | generate_script.py:71-80 | `clean_text(clean_text(s)) == clean_text(s)` |
| ChapterText.CollapseKeeps | preprocess_chapters.py:38-44 | the non-blank lines of the result are the stripped non-blank lines of the input, in order |
| ChapterText.CleanTextKeepsLines | preprocess_chapters.py:36-45 | the cleaned text's non-blank lines are the input's non-blank lines, stripped, in order: no text is lost |
| ChapterText.KeptOrSkipped | preprocess_chapters.py:84-99 | every file is either kept or skipped, and with no minimum every file is kept |
| ChapterText.Numbered | preprocess_chapters.py:91-98 | the kept files become chapters numbered densely from 1 in file order |
| ChapterText.CollectSnoc | preprocess_chapters.py:84-99 | one more file is kept and numbered next when it has enough words, and skipped by name otherwise |
| ChapterText.CollectChapters | preprocess_chapters.py:76-106 | no files and all files skipped are errors; otherwise the chapters are the kept files numbered from 1, with the skipped names in order |
| Cli.Window | storytelling_cli/__main__.py:428-433 | exactly the candidates at positions lo up to hi that exist, in order |
| Cli.PartSlugs | storytelling_cli/__main__.py:418-439 | a part names only candidates: an index, a range or a slug named outright |
| Cli.IndexSlug | storytelling_cli/__main__.py:418-425 | an index in range names its candidate; any other index raises `IndexOutOfRange` |
| Cli.RangeSlugs | storytelling_cli/__main__.py:426-433 | a range names only candidates |
| Cli.NamedSlug | storytelling_cli/__main__.py:435-439 | a named slug is accepted exactly when it is a candidate; otherwise `InvalidPart` |
| Cli.Mentions | storytelling_cli/__main__.py:416-440 | the parts name only candidates, or the first failing part's error is raised |
| Cli.Chosen | storytelling_cli/__main__.py:414-443 | each named slug once, in order of first mention; an empty result raises `NothingMatched` |
| Cli.Selection | storytelling_cli/__main__.py:405-444 | blank text raises; `all`/`a` in any case takes every candidate; otherwise a non-empty list of distinct candidates |
| Cli.ParseSelection | storytelling_cli/__main__.py:405-444 | the loop with the `chosen` list and the `seen` set computes `Selection` |
| Cli.ChooseParts | storytelling_cli/__main__.py:417-440 | the loop over the parts yields the deduplicated mentions or the first error |
| Cli.TakePart | storytelling_cli/__main__.py:418-440 | one part appends its unseen slugs, or raises its error |
| Cli.AddSlug | storytelling_cli/__main__.py:423-425 | a slug is chosen and seen unless seen already |
| Cli.TakeRange | storytelling_cli/__main__.py:426-434 | a range whose ends come in either order is read smaller end first |
| Cli.AddRange | storytelling_cli/__main__.py:430-433 | each existing candidate from lo to hi not yet seen is appended, in order |
| Cli.AddRangeStep | storytelling_cli/__main__.py:430-433 | one step of the range loop appends the candidate at idx when it exists and is new |
| Cli.MentionsStop | storytelling_cli/__main__.py:440 | a part that raises ends the selection with its error |
| Cli.MentionsFirstError | storytelling_cli/__main__.py:417-440 | once a prefix of the parts raises, the selection raises the same |
| Cli.SelectIndex | storytelling_cli/__main__.py:418-425 | a lone written index in range chooses that candidate |
| Cli.RangeOfWritten | storytelling_cli/__main__.py:426-427 | a written range `a-b` reads back as its two ends |
| Cli.RangeEitherWay | storytelling_cli/__main__.py:426-433 | `a-b` and `b-a` name the same candidates: those from the smaller to the larger end, inclusive, that exist |
| Cli.DashNotNumber | storytelling_cli/__main__.py:418-426 | a part with a dash is never read as a lone index |
| Cli.ItemFails | storytelling_cli/__main__.py:384-402 | an optional item asking for a missing artefact fails |
| Cli.CheckOptional | storytelling_cli/__main__.py:384-403 | the loop that stops at the first failing item agrees with every item holding |
| Cli.FilterChapters | storytelling_cli/__main__.py:367-403 | a status is kept exactly when it matches the required key and every optional item |
| Cli.FilterComplements | storytelling_cli/__main__.py:368-380 | asking for a thing and for its absence splits the statuses in two |
| Cli.ColorCode | storytelling_cli/__main__.py:40-50 | a code exists exactly for the nine names of `COLOR_CODES`, and each is an ANSI graphic-rendition sequence: escape (U+001B), `[`, digits and semicolons, `m` |
| Cli.ColorCodeTexts | storytelling_cli/__main__.py:40-50 | each name's code character by character, escape first (red is escape `[0;31m`, reset is escape `[0m`) |
| Cli.Colorize | storytelling_cli/__main__.py:98-101 | the text unchanged when colour is off or the name is unknown, and otherwise the colour's code, the text and the reset code |
| Cli.ColorizeUncolored | storytelling_cli/__main__.py:98-101 | colouring adds the code in front and the reset behind, or nothing when colour is off or unknown; the coloured text starts with escape, its front is a graphic-rendition sequence and its back is the reset; cutting them off gives the text back |
| EmbedTags.InsertAfter | embed_tags.py:325 | `s[:pos+1] + piece + s[pos+1:]` grows the text by the piece and keeps what is around it |
| EmbedTags.AddPauseTags | embed_tags.py:313-327 | the loop over the points taken last to first gives the text with every fitting pause tag inserted after its punctuation |
| EmbedTags.PausesRoundTrip | embed_tags.py:313-327 | taking the inserted tags out again gives the content back; with no points the content is unchanged |
| EmbedTags.PausesKeepEarlier | embed_tags.py:317-325 | tags inserted at or after position q leave the character at q where it was |
| EmbedTags.AscendingSeeOriginal | embed_tags.py:317-324 | with points in increasing order, each is checked against the original content: exactly the points whose punctuation is there get a tag |
| EmbedTags.InsertAt | embed_tags.py:343 | `s[:pos] + piece + s[pos:]` grows the text by the piece and keeps what is around it |
| EmbedTags.AddVoiceEffects | embed_tags.py:329-345 | the loop over the effects taken last to first gives the text with each fitting effect inserted before its keyword |
| EmbedTags.EffectsRoundTrip | embed_tags.py:329-345 | taking the inserted effects out again gives the content back; with no effects the content is unchanged |
| EmbedTags.PostProcessTags | embed_tags.py:348-376 | the result is the spelling-fixed script with doubled blank lines collapsed |
| EmbedTags.KeptLast | embed_tags.py:366-374 | the last kept line is the last line, or both are blank |
| EmbedTags.KeptNoDoubleBlank | embed_tags.py:366-374 | the kept lines never hold two blank lines in a row |
| EmbedTags.KeptFilled | embed_tags.py:366-374 | every non-blank line is kept, in its order |
| EmbedTags.KeptLinesFixed | embed_tags.py:366-374 | lines without two blank ones in a row are all kept |
| EmbedTags.KeptLinesIdempotent | embed_tags.py:366-374 | tidying the blank lines a second time changes nothing |
| EmbedTags.PostProcessKeeps | embed_tags.py:348-376 | a script with correct tag spellings and no doubled blank line passes through unchanged |
| Explanation.EnsureString | server/app/services/explanation.py:329-334 | a string is stripped, `None` gives the fallback, any other value is printed and stripped, and a blank result gives the fallback |
| Explanation.EnsureStringPrinted | server/app/services/explanation.py:333-334 | a whole number, a boolean, a list or an object never falls back: its printed form is never blank |
| Explanation.EnsureStringStable | server/app/services/explanation.py:330-331 | a value that is already a non-blank stripped string comes back unchanged |
| Explanation.ItemText | server/app/services/explanation.py:323 | one element of a key-point list yields its stripped text when that is not blank |
| Explanation.NormalizeList | server/app/services/explanation.py:321-327 | the non-blank stripped texts of a list's elements in order; a string is a list of itself; any other value gives nothing |
| Explanation.NormalizeListAppend | server/app/services/explanation.py:322-323 | the key points of a concatenation are the key points of each part |
| Explanation.NormalizeListOne | server/app/services/explanation.py:323 | one element gives its stripped text exactly when that text is not blank |
| Explanation.NormalizeListMembers | server/app/services/explanation.py:321-327 | every key point comes from an element of the list |
| Explanation.VocabularyOf | server/app/services/explanation.py:341-350 | an item yields an entry exactly when it is an object with a non-blank word and meaning; its note is kept when present and not null |
| Explanation.ParseVocabulary | server/app/services/explanation.py:336-351 | anything but a list gives no entries; otherwise the entries of the well-formed items, in order |
| Explanation.ParseVocabularyMembers | server/app/services/explanation.py:341-350 | an entry is in the vocabulary exactly when some item of the list yields it |
| Explanation.FenceBody | server/app/services/explanation.py:300-313 | the text handed to the JSON decoder: the stripped reply, or the stripped inside of its code fence |
| Explanation.JsonFenced | server/app/services/explanation.py:303-308 | after a ```` ```json ```` fence the inside runs from the next line up to the next fence |
| Explanation.PlainFenced | server/app/services/explanation.py:309-313 | in a plain fence the inside runs between the first and the last fence when they differ |
| Explanation.JsonFenceRoundTrip | server/app/services/explanation.py:300-313 | a reply fenced as JSON gives back its body, stripped |
| Explanation.PlainFenceRoundTrip | server/app/services/explanation.py:300-313 | a reply in a plain fence gives back its body, stripped, unless the body starts a ```` ```json ```` fence |
| Explanation.ParseJson | server/app/services/explanation.py:300-319 | the decoded reply, or `InvalidJson` when the decoder rejects the text |
| Explanation.Respond | server/app/services/explanation.py:124-165 | a miss fails when the request fails, the reply is empty, not JSON or not an object, and otherwise builds an uncached result |
| Explanation.NormalizePhraseForm | server/app/services/explanation.py:357-372 | the normalised phrase is lower case, stripped and single-spaced |
| Explanation.NormalizePhraseNotIdempotent | server/app/services/explanation.py:368-371 | punctuation is stripped once, before the spaces are collapsed, so normalising again can change the result |
| Explanation.Language | server/app/services/explanation.py:103 | `(language or "zh-TW").strip() or "zh-TW"` is never blank and is stripped |
| Explanation.KeysSeparate | server/app/services/explanation.py:107-119 | a phrase request never finds a sentence entry, and two sentence requests share an entry exactly when their normalised fields agree |
| Explanation.ServedStores | server/app/services/explanation.py:121-167 | after a request the cache stays within capacity with distinct keys; a hit leaves the entry and returns it marked cached; a successful miss stores its uncached result; other keys keep their entries |
| Explanation.ExplanationService.constructor | server/app/services/explanation.py:44-57 | the timeout is raised to at least one second, the capacity to at least one entry, and the cache starts empty |
| Explanation.ExplanationService.ExplainSentence | server/app/services/explanation.py:92-167 | a blank sentence raises and leaves the cache; otherwise the request is served under the sentence key |
| Explanation.ExplanationService.ExplainPhrase | server/app/services/explanation.py:169-281 | the phrase, then the sentence, then the normalised phrase must be non-blank; otherwise the request is served under the phrase key |
| Explanation.ExplanationService.Serve | server/app/services/explanation.py:121-167 | the cache look-up and, on a miss, the reply's result stored and the cache pruned, as `ServedStores` describes |
| Explanation.ExplanationService.PruneCache | server/app/services/explanation.py:353-355 | the oldest entries go until the capacity is met: the cache becomes its newest `max_cache_entries` entries |
| GcsMirror.TrimSlashes | server/app/services/gcs_mirror.py:30 | the result is a prefix of the input that does not end in a slash, and only slashes were removed |
| GcsMirror.ParseGcsUri | server/app/services/gcs_mirror.py:24-31 | fails exactly for a URI without the `gs://` scheme, with that URI in the error; the bucket holds no slash; the prefix does not end in a slash; a URI with no slash after the bucket has an empty prefix |
| GcsMirror.SlashFree | server/app/services/gcs_mirror.py:28 | a string lacks the slash character exactly when the one-character string `/` does not occur in it |
| GcsMirror.ParseBucketUri | server/app/services/gcs_mirror.py:24-31 | `gs://` followed by a slash-free bucket parses back as that bucket and an empty prefix |
| GcsMirror.ParseObjectUri | server/app/services/gcs_mirror.py:24-31 | `gs://bucket/path` parses back as exactly that bucket and that path when the path does not end in a slash |
| GcsMirror.OpenMirror | server/app/services/gcs_mirror.py:52-61 | constructing a mirror fails exactly for a URI that is not `gs://`; otherwise the mirror holds the parsed bucket and prefix and the given manifest |
| GcsMirror.ManifestKey | server/app/services/gcs_mirror.py:123 | the key has the length of the path and no backslash; a path without backslashes is its own key |
| GcsMirror.ManifestKeyIdempotent | server/app/services/gcs_mirror.py:123 | normalising a key twice gives the same key as normalising it once |
| GcsMirror.ManifestEntry | server/app/services/gcs_mirror.py:122-124 | an entry is found exactly when the normalised path is a manifest key, and it is that key's metadata |
| GcsMirror.GetGcsUri | server/app/services/gcs_mirror.py:126-136 | a URI is returned exactly when the path, with backslashes read as slashes, is a manifest key |
| GcsMirror.GetGcsUriParses | server/app/services/gcs_mirror.py:126-136 | the URI of a manifest entry parses back, by `parse_gcs_uri`, as the mirror's bucket and the entry's full object path |
| GcsMirror.RelativePath | server/app/services/gcs_mirror.py:165-172 | with no prefix every blob name is its own relative path; otherwise a name is relative exactly when it is the prefix or starts with the prefix and a slash, and the result is what follows them |
| GcsMirror.RelativePathRoundTrip | server/app/services/gcs_mirror.py:165-172 | a blob under the prefix maps to its relative path, and that path in the manifest maps back to the blob's own URI |
| GcsMirror.RelativePathRoundTripAtRoot | server/app/services/gcs_mirror.py:165-172 | with no prefix a blob name is its relative path, and maps back to the blob's own URI |
| GcsMirror.ListingPrefix | server/app/services/gcs_mirror.py:148-151 | no directory or an empty one lists everything; any other directory neither starts nor ends with a slash |
| GcsMirror.InsertSorted | server/app/services/gcs_mirror.py:161 | placing a new string into a strictly sorted list keeps it strictly sorted and holds exactly the old strings and the new one |
| GcsMirror.IterRelativePaths | server/app/services/gcs_mirror.py:138-161 | the listing is strictly sorted and holds exactly the manifest keys that equal the directory or lie under it (every key when the directory is empty) |
| GcsMirror.SortedListingUnique | server/app/services/gcs_mirror.py:161 | two strictly sorted lists holding the same strings are the same list, so the listing is determined by the manifest and the directory |
| GcsMirror.ShouldDownload | server/app/services/gcs_mirror.py:174-190 | a blob is kept exactly when the local file exists, its manifest entry is non-empty, the etag and generation match and the local size equals the remote size; a remote size that is not a number is an error; a missing file or an unknown path is always fetched |
| GcsMirror.UnchangedBlobKept | server/app/services/gcs_mirror.py:174-190 | a local copy whose recorded etag, generation and size all match the blob is not fetched again |
| GenerateScript.ResolveBookConfig | generate_script.py:34-68 | fails with a missing-id error exactly when neither the argument nor the environment names a book, with a missing-folder error exactly when the book's folder does not exist, and succeeds only for an existing folder whose overrides are a dictionary |
| GenerateScript.MergedGet | generate_script.py:52-55 | reading the defaults updated by the overrides gives the override when the book sets the key, else the default, else the fallback |
| GenerateScript.AssignedOther | generate_script.py:57-63 | the seven assignments leave every other key as it was in the merged dictionary |
| GenerateScript.AssignedFixed | generate_script.py:57-63 | each assigned key reads as the value assigned to it |
| GenerateScript.DisplayNameGet | generate_script.py:65-66 | adding the display name touches no key but `book_name_override`, which is added only when missing and the display name is truthy |
| GenerateScript.ResolvedPaths | generate_script.py:35-63 | a resolved book records its id (the argument when given), both roots, its folder under the books root and its summaries folder under its own folder |
| GenerateScript.ResolvedSummaries | generate_script.py:54-63 | the summary folder and suffix are the book's override, else the shared default, else `summaries` and `_summary.txt` |
| GenerateScript.ResolvedOthers | generate_script.py:52-53 | every other setting is the book's override when it sets one and the shared default otherwise |
| GenerateScript.ResolvedBookName | generate_script.py:65-66 | a configured `book_name_override` is kept; otherwise a truthy `display_name` becomes it, and otherwise the key stays absent |
| GenerateScript.PreviewIsFirstWords | generate_script.py:117-131 | the preview splits back into exactly the chapter's first 120 words (all of them when fewer), written with single spaces |
| GenerateScript.NumberedTitlesDistinct | generate_script.py:123-124 | two kept chapters at different positions never share a `Chapter n` title |
| GenerateScript.ChapterTitlesDiffer | generate_script.py:124 | different chapter numbers give different `Chapter n` titles |
| GenerateScript.Preview | generate_script.py:220 | a preview under 800 characters is kept whole; a longer one becomes its first 800 characters and `...` |
| GenerateScript.Filled | generate_script.py:173-174 | a summary, or its non-empty placeholder when it is empty, is never empty |
| GenerateScript.PayloadLayout | generate_script.py:171-183 | the packet is the previous-summary label and text, a blank line, the chapter label and text, a blank line, the next-summary label and the next summary with its trailing whitespace removed (the label ends the packet when that summary is blank); a missing summary is replaced by its placeholder |
| GenerateScript.TagAt | generate_script.py:267 | a recognised speaker tag lies within the text, is at least nine characters long and runs from `<` to `>` |
| GenerateScript.TagRecognised | generate_script.py:267 | every `<PersonN>` and `</PersonN>` tag is recognised whole at the start of the text, whatever follows it |
| GenerateScript.RemoveTags | generate_script.py:267 | removing tags never lengthens the text, and text without `<` is left as it is |
| GenerateScript.TagRemoved | generate_script.py:267 | a tag at the start disappears entirely and what follows it is cleaned as on its own |
| GenerateScript.NewlineRun | generate_script.py:269 | the leading run of line breaks is maximal: every character in it is a line break and the next one is not |
| GenerateScript.CollapseNewlines | generate_script.py:269 | the result never holds three line breaks in a row, keeps a first character that is not a line break, and introduces no `<` |
| GenerateScript.CollapseNewlinesFixed | generate_script.py:269 | text without three line breaks in a row is left unchanged, so collapsing twice is collapsing once |
| GenerateScript.StripKeeps | generate_script.py:270 | stripping the ends keeps text free of triple line breaks and of `<` |
| GenerateScript.CleanSpeakerTags | generate_script.py:264-270 | the cleaned script has no surrounding whitespace and no three line breaks in a row, and adds no `<` |
| GenerateScript.CleanSpeakerTagsStable | generate_script.py:264-270 | on text without tags, cleaning a cleaned script changes nothing |
| GenerateScript.FindChapter | generate_script.py:330-345 | finds the first chapter whose file stem or title is the name, or reports that no chapter answers to it |
| GenerateScript.SelectChapters | generate_script.py:330-364 | an unknown name fails; a known name selects exactly the first chapter answering to it; without a name the run is the chapters from `max(1, start_chapter)` taking `max(1, chapters_per_run)` of them, cut at the end of the book, and fails when that is empty |
| IntegratedPodcast.DetectInputType | archive/integrated_podcast_generator.py:122-136 | a web address is a YouTube video exactly when it mentions `youtube.com` or `youtu.be`, any other web address is a page, an existing file with suffix `.pdf` is a PDF, and everything else is text |
| IntegratedPodcast.YouTubeAddresses | archive/integrated_podcast_generator.py:122-124 | every `https://youtu.be/` short link and every `https://www.youtube.com/watch?v=` address is classified as a video |
| IntegratedPodcast.ClosestIndex | archive/integrated_podcast_generator.py:196-197 | the chosen key is at least as near the target as every key, and every earlier key is strictly farther, so a tie goes to the first key in the table |
| IntegratedPodcast.LengthParameters | archive/integrated_podcast_generator.py:144-208 | up to 20 minutes the row of the nearest key; beyond 20 minutes `min(200·target, 8000)` words, `min(target, 25)` chunks, chunks of 900 characters and the comprehensive, detailed style |
| IntegratedPodcast.ClosestKeys | archive/integrated_podcast_generator.py:144-197 | for every whole target the nearest key: 0.5 for none or fewer, the target itself for 1 to 3, 3 for 4, 5 for 5 to 7, 10 for 8 to 12, 15 for 13 to 17 and 20 from 18 |
| IntegratedPodcast.ClosestIndexIs | archive/integrated_podcast_generator.py:196-197 | the nearest key's position, target by target, as the table of the previous row reads it |
| IntegratedPodcast.RowsGrow | archive/integrated_podcast_generator.py:144-193 | later rows of the table never ask for fewer words or fewer chunks |
| IntegratedPodcast.LengthBounds | archive/integrated_podcast_generator.py:144-208 | every target gets between 200 and 8000 words, 3 to 25 chunks, chunks of 600 to 900 characters and two style words |
| IntegratedPodcast.LengthMonotone | archive/integrated_podcast_generator.py:144-208 | a longer target never gets fewer words or fewer chunks |
| IntegratedPodcast.GuidanceBand | archive/integrated_podcast_generator.py:222-236 | the overview band exactly up to 1 minute, the moderate band above 1 up to 3, the balanced band above 3 up to 5, and the in-depth band above 5 |
| Mfa.ExtractIntervalTokens | alignment/mfa.py:211-229 | fails exactly when the tier is missing, naming that tier; otherwise yields the tier's surviving labels split into tokens with their interval's times |
| Mfa.MapMatches | alignment/mfa.py:304-319 | each matched pair stores its interval index at the script position of its reference word and nothing else changes; the counters are the numbers of matched and unmatched reference words |
| Mfa.Sweep | alignment/mfa.py:321-328 | the array becomes the forward propagation: an unmapped punctuation token takes the most recent interval seen, word tokens are left as they were |
| Mfa.WriteEntries | alignment/mfa.py:330-340 | one block per token that has an interval, numbered from 1 in token order |
| Mfa.WriteSrt | alignment/mfa.py:298-341 | the file is the blocks of the final token-to-interval mapping, and the counters count matched and unmatched reference words; when the alignment is the aligner's own, a later entry never shows an earlier interval than an entry before it |
| Mfa.GenerateWordLevelSrt | alignment/mfa.py:343-361 | a missing `words` tier is the missing-tier error and a tier that yields no token is the alignment error, and these are the only failures; otherwise the total is the number of script words, matched plus missing equals it, the file is the blocks of the alignment of the normalised words against the interval tokens, and a later entry never shows an earlier interval |
| Mfa.HasManualBeam | alignment/mfa.py:152-157 | true exactly when some argument's option name, the part before the first `=`, is `--beam` or `--retry_beam` |
| Mfa.BeamSettings | alignment/mfa.py:160-165 | beam 10 and retry beam 40 up to 360 seconds, 60 and 200 up to 600 seconds, and 100 and 400 beyond; the retry beam always exceeds the beam |
| Mfa.BeamMonotone | alignment/mfa.py:160-165 | longer audio never gets a narrower beam or retry beam |
| NaturalSort.FirstDigit | storytelling_cli/status.py:28 | the position found is a digit (or the end), and no digit comes before it |
| NaturalSort.DigitRun | storytelling_cli/status.py:28 | the run found is all digits and is maximal: the next character, if any, is not a digit |
| NaturalSort.DigitSplit | storytelling_cli/status.py:28 | the pieces alternate between runs without digits and non-empty runs of digits, beginning and ending with a run without digits |
| NaturalSort.DigitSplitJoins | storytelling_cli/status.py:28 | the pieces joined back together give the text again |
| NaturalSort.PartKey | storytelling_cli/status.py:31-34 | a piece becomes a number exactly when it is a non-empty run of digits, and lower-cased text otherwise |
| NaturalSort.NaturalKey | storytelling_cli/status.py:26-35 | the key alternates between text and numbers, text first and last |
| NaturalSort.ComputeNaturalKey | storytelling_cli/status.py:29-35 | the loop over the pieces builds exactly the natural key |
| NaturalSort.NaturalKeysComparable | storytelling_cli/status.py:26-35 | any two keys hold text where the other holds text and numbers where it holds numbers, so comparing them never mixes the two and sorting never raises |
| NaturalSort.StrLessTransitive | storytelling_cli/status.py:35 | Python's string order is transitive |
| NaturalSort.StrLessAsymmetric | storytelling_cli/status.py:35 | Python's string order is asymmetric |
| NaturalSort.StrLessIrreflexive | storytelling_cli/status.py:35 | no string is below itself |
| NaturalSort.StrLessTotal | storytelling_cli/status.py:35 | two different strings are ordered one way or the other |
| NaturalSort.KeyLessIrreflexive | storytelling_cli/status.py:35 | no key is below itself |
| NaturalSort.KeyLessTransitive | storytelling_cli/status.py:35 | the order on keys is transitive, so sorting by it is well defined |
| NaturalSort.NumberedKey | storytelling_cli/status.py:26-35 | a digit-free name followed by a number without leading zeros has the key of its lower-cased text, the number and an empty text |
| NaturalSort.NumberedOrder | storytelling_cli/status.py:26-35 | names that differ only in a trailing number sort exactly in the order of the numbers |
| NaturalSort.Chapter2Before10 | storytelling_cli/status.py:26-35 | `chapter2` sorts before `chapter10` although `chapter10` is below `chapter2` as plain text |
| NaturalSort.StrLessCommonPrefix | storytelling_cli/status.py:35 | a common prefix does not change the order of two strings |
| NaturalSort.Insert | generate_script.py:101 | inserting a name adds exactly that name to the list |
| NaturalSort.InsertSorted | generate_script.py:101 | inserting a name into a list sorted by key keeps it sorted |
| NaturalSort.Tied | generate_script.py:101 | the names tied on a key all have that key |
| NaturalSort.TiedAppend | generate_script.py:101 | the tied names of two lists put together are those of the first followed by those of the second |
| NaturalSort.InsertTied | generate_script.py:101 | inserting a name places it behind every name with its key and leaves every other key's names in their order |
| NaturalSort.InsertKeepsTies | generate_script.py:101 | one round of the sorting loop keeps names with equal keys in the order they came in |
| NaturalSort.SortNatural | generate_script.py:101 | the result is a permutation of the names, sorted by natural key, and names with equal keys keep their input order, as Python's stable `sorted` does |
| OrderedDicts.IndexOf | server/app/services/explanation.py:120-122 | the position found holds the key and no earlier entry does; no position means no entry holds it |
| OrderedDicts.Get | server/app/services/explanation.py:120 | a value is found exactly when the dictionary has the key |
| OrderedDicts.IndexUnique | server/app/services/explanation.py:120-122 | the first entry holding a key is where the look-up finds it |
| OrderedDicts.GetAt | server/app/services/explanation.py:120-122 | with each key once, every entry is what a look-up of its key finds |
| OrderedDicts.Put | server/app/services/explanation.py:164 | assigning an existing key keeps the number of entries; a new key is appended last |
| OrderedDicts.PutGet | server/app/services/explanation.py:164 | after an assignment the key reads as the new value and every other key as before |
| OrderedDicts.PutDistinct | server/app/services/explanation.py:164 | assignment keeps each key once |
| OrderedDicts.UpdateGet | generate_script.py:52-53 | after `a.update(b)` a key of `b` reads as in `b` and any other key as in `a` |
| OrderedDicts.UpdateDistinct | generate_script.py:52-53 | `update` keeps each key once |
| OrderedDicts.MoveToEndKeeps | server/app/services/explanation.py:122 | `move_to_end` keeps the keys distinct, the number of entries and every key's value, and makes the moved key the most recent |
| OrderedDicts.NewestKeeps | server/app/services/explanation.py:353-355 | pruning down to the size keeps at most that many entries, each key once and with its old value, keeps everything when nothing is over the size, and always keeps the most recent entry when the size is at least one |
| OrderedDicts.StoreKeeps | server/app/services/translation.py:128-139 | storing a fresh result and pruning keeps each key once and the size bound; a new key, or any key when nothing is evicted, reads back as stored; every other surviving key keeps its value |
| PlayWithSubtitles.ParseSrt | play_with_subtitles.py:363-389 | the file's stripped text is cut at blank lines and every block is read in order: a block of fewer than three lines is skipped, and the first block whose ordinal or times do not read fails the whole file |
| SrtTime.TimeLineSplits | play_with_subtitles.py:379 | a time line written from two timestamps splits at ` --> ` into exactly those two timestamps, as the readers of `play_with_subtitles.py` and `view_srt.py` split it |
| PlayWithSubtitles.ThreeLines | play_with_subtitles.py:375 | an ordinal, a time line and a line of text joined by line breaks split back into those three lines |
| PlayWithSubtitles.ReadTimesOf | play_with_subtitles.py:368-379 | a time line of two readable timestamps reads as their two times in seconds |
| PlayWithSubtitles.ParseBlockOf | play_with_subtitles.py:375-387 | a trimmed block of three lines whose ordinal and time line read is read as that subtitle, with its text |
| PlayWithSubtitles.RenderReads | play_with_subtitles.py:368-371 | a timestamp written as `HH:MM:SS,mmm` is made of timestamp characters and reads back as its time in seconds |
| PlayWithSubtitles.WrittenLines | play_with_subtitles.py:375 | a block written from a digit ordinal, a time line and one trimmed line of text is trimmed and splits into those three lines |
| PlayWithSubtitles.ParseWritten | play_with_subtitles.py:375-387 | a block written from an ordinal, two timestamps and a line of text reads back as what the three read as |
| PlayWithSubtitles.ParseBlockRoundTrip | play_with_subtitles.py:368-387 | reading inverts writing: a block laid out as the SRT writers lay it out reads back as its ordinal, its two times in seconds and its text |
| PlayWithSubtitles.RewindTarget | play_with_subtitles.py:64-66 | the count of leading subtitles, within the limit, that start before the time: every one counted starts before it and the next one within the limit does not |
| PlayWithSubtitles.RunEnd | play_with_subtitles.py:77 | the index where showing stops: every subtitle passed has started by the time and the next one within the limit has not |
| PlayWithSubtitles.SubtitleRenderer.constructor | play_with_subtitles.py:52-57 | the limit is the number of subtitles, or the given limit when smaller; nothing is shown yet; the renderer is finished at once exactly when the limit is 0 |
| PlayWithSubtitles.SubtitleRenderer.RecalculateIndex | play_with_subtitles.py:63-70 | the next index becomes the number of leading subtitles that start before the time, and a jump notice is printed exactly when the index changes |
| PlayWithSubtitles.SubtitleRenderer.ShowStarted | play_with_subtitles.py:77-83 | every subtitle from the next index that has started by the time is shown, in order, up to the limit, and the next index moves past them |
| PlayWithSubtitles.SubtitleRenderer.Update | play_with_subtitles.py:72-85 | a finished renderer changes nothing; otherwise a clock more than the threshold behind the last time rewinds the index first, then every started subtitle is shown in order, the last time becomes the time, and the renderer is finished exactly when the limit is reached |
| PlayWithSubtitles.Decode | play_with_subtitles.py:176-194 | what stays buffered is always a suffix of the buffer; no key leaves an empty buffer or a short escape sequence waiting; Ctrl-C leaves the buffer starting with it |
| PlayWithSubtitles.KeyListener.constructor | play_with_subtitles.py:91-98 | a new listener has an empty buffer |
| PlayWithSubtitles.KeyListener.PollKey | play_with_subtitles.py:163-194 | when nothing was read there is no key and the buffer is unchanged; when bytes were read the decoded text is appended and the key and the remaining buffer are what decoding gives |
| PlayWithSubtitles.DecodeKeyText | play_with_subtitles.py:176-193 | the text of a key (space, `ESC [ C`, `ESC [ D`) decodes as that key and leaves what follows it buffered |
| PlayWithSubtitles.DecodeDropsNoise | play_with_subtitles.py:184-186 | a character that is not a space, Ctrl-C or an escape is dropped without a trace |
| PlayWithSubtitles.DecodePressed | play_with_subtitles.py:176-193 | a key is reported only when its text was in the buffer just before what stays buffered |
| PlayWithSubtitles.EnsureCommandFlags | play_with_subtitles.py:219-232 | the command becomes itself followed, in order, by the argument of each required flag it lacks |
| PlayWithSubtitles.FlagsIndependent | play_with_subtitles.py:220-232 | the argument appended for one flag never counts as another flag |
| PlayWithSubtitles.HasFlagAppend | play_with_subtitles.py:220-221 | appending arguments that do not match a flag does not change whether the command has it |
| PlayWithSubtitles.EnsuredAppendsMissing | play_with_subtitles.py:219-232 | every argument is kept in place and only the arguments of missing flags are appended, each once |
| PlayWithSubtitles.EnsuredHasFlags | play_with_subtitles.py:219-232 | afterwards the command has every required flag |
| PlayWithSubtitles.EnsuredIdempotent | play_with_subtitles.py:219-232 | a second call changes nothing |
| PlayWithSubtitles.NothingMissing | play_with_subtitles.py:219-232 | a command that has every flag gets nothing appended |
| PlayWithSubtitles.ExtractIpcPath | play_with_subtitles.py:234-240 | no path exactly when no argument names one; otherwise the path named by the first argument that names one, either `--input-ipc-server` followed by a value or `--input-ipc-server=path` |
| PlayWithSubtitles.IpcAtAppend | play_with_subtitles.py:234-240 | appending arguments keeps what an argument names, except a bare flag in last place |
| PlayWithSubtitles.TrailingIpcFlag | play_with_subtitles.py:219-240 | a command made of a bare `--input-ipc-server` gets all five flag arguments appended, and the first of them, `--no-video`, is then read as the IPC path |
| PreprocessChapters.SummariesDir | preprocess_chapters.py:183 | the configured summaries folder when it is set, else `summaries` under the chapters folder |
| PreprocessChapters.TargetWords | preprocess_chapters.py:208-211 | a ratio of 0 is the division error and every other ratio gives a target; the target is never below the minimum, never above the maximum when the bounds are ordered, and is the ratio rounded half to even whenever that lies between them |
| PreprocessChapters.Existing | preprocess_chapters.py:194-206 | the skipped chapters' entries are never more than the chapters |
| PreprocessChapters.Pending | preprocess_chapters.py:194-212 | the jobs, when there is no error, are never more than the chapters |
| PreprocessChapters.Plan | preprocess_chapters.py:186-212 | the loop stops with the division error exactly when the jobs of the chapters fail; otherwise it yields exactly the entries of the skipped chapters and the jobs of the others, both in chapter order; the skip count is the number of entries, and entries and jobs together number the chapters |
| PreprocessChapters.PendingJobs | preprocess_chapters.py:194-212 | every job is for one of the chapters and, unless forced, one whose summary does not exist; every target respects the minimum and, with ordered bounds, the maximum; with `--force` and a non-zero ratio every chapter gets a job and none is skipped |
| PreprocessChapters.PendingFails | preprocess_chapters.py:194-212 | the jobs fail exactly when the ratio is 0 and at least one chapter is not skipped, so `--ratio 0` with every summary present and no `--force` raises nothing |
| PreprocessChapters.PendingStops | preprocess_chapters.py:194-212 | once the chapters up to some point fail, the whole run fails: the error is raised by the first chapter that needs a job |
| PreprocessChapters.Workers | preprocess_chapters.py:214 | at least one worker; the requested number when positive; one per job when not given and there are jobs |
| RenameBook.ReplaceInText | scripts/rename_book.py:67-72 | the loop applies every replacement with a non-empty old text, in order, to the whole string |
| RenameBook.ReplaceStrings | scripts/rename_book.py:62-73 | the result has the shape of the input (dictionaries keep their keys in order, lists their length); a string is rewritten by every replacement in order; every other value is returned as it is |
| RenameBook.ReplaceItems | scripts/rename_book.py:65-66 | every list item is rewritten on its own, in place |
| RenameBook.ReplaceEntries | scripts/rename_book.py:63-64 | every dictionary entry keeps its key and the shape of its value |
| RenameBook.ReplaceEntriesAt | scripts/rename_book.py:63-64 | every dictionary entry keeps its key and has its value rewritten |
| RenameBook.ReplaceAllSame | scripts/rename_book.py:71 | replacing a text by itself changes nothing |
| RenameBook.ReplacedInert | scripts/rename_book.py:67-72 | replacements whose old and new texts agree leave a string unchanged |
| RenameBook.ReplaceStringsInert | scripts/rename_book.py:62-73 | replacements whose old and new texts agree leave any value unchanged, however deeply nested |
| RenameBook.ReplacedSkipsEmpty | scripts/rename_book.py:70 | replacements with an empty old text are skipped: the result is that of the others alone |
| RenameBook.SetIfPresent | scripts/rename_book.py:132-141 | assigning a key only when present keeps the keys in order, gives a present key the value, and leaves every other key alone |
| RenameBook.PutOthers | scripts/rename_book.py:132-141 | assigning a present key keeps the keys in order and every other key's value |
| RenameBook.TransformPayload | scripts/rename_book.py:130-147 | a dictionary payload stays a dictionary with its keys in order; any other payload only has its strings rewritten |
| RenameBook.TransformSetsBook | scripts/rename_book.py:130-147 | a payload naming its book names the new id; one with an output folder gets the new folder when one is given; every other key reads its rewritten value |
| RenameBook.GatherBookMetadata | scripts/rename_book.py:90-120 | fails exactly when the overrides table is not a dictionary (or on the other two non-dictionary errors); otherwise the display name, the output folder and the summary folder are read from the overrides merged over the defaults, in the order of fallbacks the source gives |
| RenameBook.NamesTruthy | scripts/rename_book.py:99-110 | for a non-empty id the display name and the output folder are never empty |
| RenameBook.OutputFolderFallsBack | scripts/rename_book.py:104-110 | the override's `display_name` never decides the output folder on its own: past the first three sources the folder is the display name |
| RenameBook.MergedReadsOverrides | scripts/rename_book.py:96-97 | a merged setting reads as the override when the override has it and as the default otherwise |
| RenameBook.EnvLine | scripts/rename_book.py:159-172 | a line is rewritten only when it holds exactly the old id or the old name, and then becomes the id line with the new id or the name line with the new name |
| RenameBook.EnvLines | scripts/rename_book.py:159-172 | every line is rewritten on its own, in place |
| RenameBook.UpdateEnv | scripts/rename_book.py:152-175 | no file means no change; otherwise the file changed exactly when some line is rewritten, and then it is written back as the rewritten lines joined by line breaks with a final one |
| RenameBook.RewriteLines | scripts/rename_book.py:158-172 | the loop yields exactly the rewritten lines and reports a change exactly when some line was rewritten |
| RenameBook.EnvLinesSnoc | scripts/rename_book.py:158-172 | one more line adds its rewritten line and its own rewrite to the result |
| RenameBook.AnyRewriteSnoc | scripts/rename_book.py:158-172 | a list of lines with one more line rewrites something exactly when the list did or the new line is rewritten |
| RenameBook.EnvUpdateSettles | scripts/rename_book.py:152-175 | with a new id and a new name, no rewritten line would be rewritten again, so a second update changes nothing |
| RenameBook.ResolveName | scripts/rename_book.py:197-205 | a given name wins; otherwise a name equal to the old id becomes the new id and any other name stays |
| RenameBook.ResolveNameLeavesOldId | scripts/rename_book.py:197-205 | when no name is given the result is never the old id |
| RenameBook.PlanRename | scripts/rename_book.py:182-223 | renaming to the same id fails exactly then, as `main` refuses it first; a plan needs the old data folder to exist and the new one not to; it reads the configuration's names, resolves the output folder and display name, and moves the output exactly when the current folder exists under another name, which must then be free; a taken output folder is reported only once the data folder checks have passed, that is after the data folder has moved |
| RenameBook.FolderMoves | scripts/rename_book.py:216-230 | the folder moves made before the run ends: none on an early error, the data folder alone when the output folder is taken, and otherwise the data folder, then the output folder when it moves |
| RenameBook.TakenOutputHalfDone | scripts/rename_book.py:216-224 | when the new output folder is taken the run fails with the data folder already moved and nothing else changed |
| RenameBook.PlanReplacements | scripts/rename_book.py:234-241 | the plan has six replacements, the first renames the id, and when the folder keeps its name the folder replacements rename nothing |
| SegmentSearch.Abs | whisperx_alignment_test/scripts/sentence_segmenter.py:141 | the absolute value is non-negative and is the number or its negation |
| SegmentSearch.AvgError | whisperx_alignment_test/scripts/sentence_segmenter.py:166-171 | the error is never negative and is zero exactly when the average lies in the target band |
| SegmentSearch.AvgErrorBelowDistance | whisperx_alignment_test/scripts/sentence_segmenter.py:166-171 | the error is at most the distance from the average to any point of the band |
| SegmentSearch.AvgErrorIsDistance | whisperx_alignment_test/scripts/sentence_segmenter.py:166-171 | for a non-empty band the error is the distance from the average to some point of the band, so it is the distance to the band |
| SegmentSearch.Chosen | whisperx_alignment_test/scripts/sentence_segmenter.py:83-109 | after a sequence of candidates the kept one is one of them, and there is one exactly when some candidate was seen |
| SegmentSearch.ChosenMinimal | whisperx_alignment_test/scripts/sentence_segmenter.py:95-109 | no candidate seen has a smaller error than the one kept |
| SegmentSearch.ChosenHitsTarget | whisperx_alignment_test/scripts/sentence_segmenter.py:89-98 | once any candidate hits the target the one kept hits it too |
| SegmentSearch.SearchState.constructor | whisperx_alignment_test/scripts/sentence_segmenter.py:79-81 | a new state holds no best candidate and has seen nothing |
| SegmentSearch.SearchState.Consider | whisperx_alignment_test/scripts/sentence_segmenter.py:83-109 | the candidate is recorded as seen; it replaces the best exactly when there is none yet, it hits the target, its error is smaller, or its error is equal and its spread smaller; otherwise the best is unchanged |
| SegmentSearch.ExploredSnoc | whisperx_alignment_test/scripts/sentence_segmenter.py:134-138 | a further probe at an interval within the bounds keeps every probe a segmentation of the words within the bounds |
| SegmentSearch.Probe | whisperx_alignment_test/scripts/sentence_segmenter.py:136 | a probe's segments are a segmentation of the spoken words |
| SegmentSearch.FlattenIgnoresIds | whisperx_alignment_test/scripts/sentence_segmenter.py:282-284 | renumbering segments does not change the words they hold |
| SegmentSearch.BisectedSnoc | whisperx_alignment_test/scripts/sentence_segmenter.py:134-151 | a probe at the midpoint of the current bracket extends the bisection record |
| SegmentSearch.BracketHalves | whisperx_alignment_test/scripts/sentence_segmenter.py:134-148 | each round halves the bracket |
| SegmentSearch.BisectedMisses | whisperx_alignment_test/scripts/sentence_segmenter.py:140-151 | every probe but the last had its average outside the target band, since a probe inside it ends the search |
| SegmentSearch.RoundStep | whisperx_alignment_test/scripts/sentence_segmenter.py:134-156 | one round keeps the record of the search: the probe is a candidate at the midpoint, the bracket moves towards the band, and the last interval is the probe's |
| SegmentSearch.SearchedRange | whisperx_alignment_test/scripts/sentence_segmenter.py:131-156 | after at least one probe the last interval lies within the interval bounds |
| SegmentSearch.Steer | whisperx_alignment_test/scripts/sentence_segmenter.py:140-156 | the search stops exactly when the average is in the band or the bracket is within the tolerance; otherwise a low average raises the lower end to the probe and a high one lowers the upper end; the new bracket lies within the old one |
| SegmentSearch.SearchInterval | whisperx_alignment_test/scripts/sentence_segmenter.py:130-158 | at most `max_iterations` probes, none exactly when there are no iterations; every probe is at the midpoint of a bracket that halves each round and within the bounds; every probe but the last missed the band; the best is the candidate `consider` keeps; the last interval is the last probe's, or the fallback without iterations |
| SegmentSearch.Bisect | whisperx_alignment_test/scripts/sentence_segmenter.py:134-156 | the loop leaves the state holding at most `max_iterations` probes, none exactly when there are no iterations, and the full record of the bisection |
| SegmentSearch.SegmentWordsAdaptive | whisperx_alignment_test/scripts/sentence_segmenter.py:112-163 | no words give no segments and the fallback statistics; otherwise the segments hold exactly the spoken words in order, are numbered from 1, and carry their own statistics at an interval within the bounds (or the fallback without iterations); with iterations no segment is left short unless it is alone |
| SegmentSearch.PickCandidate | whisperx_alignment_test/scripts/sentence_segmenter.py:157-158 | the segments chosen are a segmentation of the words, at an interval within the bounds, or the fallback without iterations |
| SegmentSearch.Renumber | whisperx_alignment_test/scripts/sentence_segmenter.py:282-284 | segments are numbered from 1 in order, keeping their words, their character counts and whether they are well built and long enough |
| SegmentSearch.Renumbered | whisperx_alignment_test/scripts/sentence_segmenter.py:282-284 | renumbering keeps the words, the character counts, well-built segments and the length bound |
| Segments.SentenceSegment.Text | whisperx_alignment_test/scripts/sentence_segmenter.py:318-319 | a segment's text never has surrounding whitespace |
| Segments.SentenceSegment.Duration | whisperx_alignment_test/scripts/sentence_segmenter.py:38-40 | the duration is never negative, never below end minus start, and is end minus start whenever the segment does not run backwards |
| Segments.CharLenCountsNonSpace | whisperx_alignment_test/scripts/sentence_segmenter.py:332-333 | a word's character length is the number of its characters that are not spaces, so never more than its length |
| Segments.CharCountConcat | whisperx_alignment_test/scripts/sentence_segmenter.py:336-337 | the character count of two word lists together is the sum of their counts |
| Segments.BuildSegment | whisperx_alignment_test/scripts/sentence_segmenter.py:315-329 | building fails exactly for no words; otherwise the segment holds those words, with id 0, its times from the first and last word, its text, its character count and its word count |
| Segments.FlattenConcat | whisperx_alignment_test/scripts/sentence_segmenter.py:174-209 | the words of two segment lists together are the words of the first followed by those of the second |
| Segments.Gap | whisperx_alignment_test/scripts/sentence_segmenter.py:187 | the silence between two words is never negative and never below the second's start minus the first's end |
| Segments.AppendSegment | whisperx_alignment_test/scripts/sentence_segmenter.py:186-204 | appending a segment that closed properly, separated from the previous one, keeps every segment closed properly |
| Segments.EmitOpen | whisperx_alignment_test/scripts/sentence_segmenter.py:206-207 | a non-empty bucket that never had to close makes a good final segment |
| Segments.Extend | whisperx_alignment_test/scripts/sentence_segmenter.py:184-200 | adding a word within the silence gap keeps the bucket cohesive, and it stays open unless it has to close now |
| Segments.SilenceCloses | whisperx_alignment_test/scripts/sentence_segmenter.py:186-189 | a silence of at least the gap closes the bucket as a segment and starts a new bucket with the word, losing no word |
| Segments.WordJoins | whisperx_alignment_test/scripts/sentence_segmenter.py:184-193 | a word within the gap joins the bucket |
| Segments.AddWord | whisperx_alignment_test/scripts/sentence_segmenter.py:186-193 | one word added: the bucket closes on a long silence first, and the words of the segments and the bucket are the old ones followed by the word |
| Segments.CloseIfDue | whisperx_alignment_test/scripts/sentence_segmenter.py:195-204 | the bucket closes exactly when it reaches the maximum duration or characters, or both the interval and the minimum characters; no word is lost |
| Segments.SimulateSegments | whisperx_alignment_test/scripts/sentence_segmenter.py:174-209 | every segment is well built with id 0, has no silence of the gap inside it and closed as soon as it had to; the segments hold exactly the words with text, in order; and consecutive segments are separated by a silence or a closing condition |
| Segments.ScanWords | whisperx_alignment_test/scripts/sentence_segmenter.py:182-204 | the loop over the words leaves closed segments and an open bucket that together hold exactly the words with text |
| Segments.HalfwayIndex | whisperx_alignment_test/scripts/sentence_segmenter.py:261-268 | the scan returns `Halfway`: the first word count at which the running character count reaches half the total, or 0 when none does |
| Segments.HalfwayFacts | whisperx_alignment_test/scripts/sentence_segmenter.py:261-268 | the position `Halfway` names is the first one reaching half the characters, and every earlier one stays below half |
| Segments.SplitHalves | whisperx_alignment_test/scripts/sentence_segmenter.py:270-274 | the two halves are two well-built segments over the words before and from the split point clamped to `[1, len - 1]` |
| Segments.CharCountSnoc | whisperx_alignment_test/scripts/sentence_segmenter.py:266 | the running character count grows by each word's length |
| Segments.HalfReached | whisperx_alignment_test/scripts/sentence_segmenter.py:261-267 | reaching half the total as a float is twice the count reaching the total as an integer |
| Segments.SplitSegment | whisperx_alignment_test/scripts/sentence_segmenter.py:260-274 | splitting fails exactly for fewer than two words (the source raises on building an empty half); otherwise two well-built halves that together hold the words, every shorter left part below half the characters, and the left half reaching half unless the right half is a single word; the pair is `SplitHalves` of the segment |
| Segments.CutHalf | whisperx_alignment_test/scripts/sentence_segmenter.py:270 | the clamped split point leaves both halves non-empty and keeps the halfway property |
| Segments.MergeSegments | whisperx_alignment_test/scripts/sentence_segmenter.py:277-279 | merging fails only when both segments are empty; otherwise a well-built segment of the first's words followed by the second's, whose count is the sum of the two |
| Segments.Halves | whisperx_alignment_test/scripts/sentence_segmenter.py:227-229 | an oversized segment of several words becomes `_split_segment`'s two halves, cut at the clamped halfway point, holding its words |
| Segments.SplitPass | whisperx_alignment_test/scripts/sentence_segmenter.py:224-233 | the split pass gives `SplitAll`: each oversized segment replaced in place by its two halves and every other segment kept as it is; the words stay in order, and something changes exactly when some segment is oversized |
| Segments.SplitKeep | whisperx_alignment_test/scripts/sentence_segmenter.py:226-232 | each segment visited contributes its pieces and records whether it was oversized |
| Segments.OversizedBeforeStep | whisperx_alignment_test/scripts/sentence_segmenter.py:227 | an oversized segment has been seen after one more step exactly when it had been or the step's segment is oversized |
| Segments.SplitPassStep | whisperx_alignment_test/scripts/sentence_segmenter.py:226-232 | each step keeps the pieces so far holding the words of the segments visited |
| Segments.MergeNeighbours | whisperx_alignment_test/scripts/sentence_segmenter.py:243-247 | merging two neighbours keeps every segment well built and every word in order |
| Segments.MergedWords | whisperx_alignment_test/scripts/sentence_segmenter.py:243-253 | a merged segment holds the words of the pair it replaced |
| Segments.MergeAt | whisperx_alignment_test/scripts/sentence_segmenter.py:243-253 | merging at a position gives `Merged`: the pair replaced by their merge, the words in order, the list one shorter, what comes before kept and the two counts added |
| Segments.MergedFacts | whisperx_alignment_test/scripts/sentence_segmenter.py:243-253 | a merge keeps the words, the segments before it and adds the two counts |
| Segments.MergeLook | whisperx_alignment_test/scripts/sentence_segmenter.py:238-255 | one round of the merge loop passes a long enough or lone segment, merges a short one into the next, or into the previous one when it is last |
| Segments.MergePass | whisperx_alignment_test/scripts/sentence_segmenter.py:235-255 | the merge pass gives `MergeFrom` from position 0: a short segment merged into the next one, else into the previous one; it keeps every word in order, never empties a non-empty list, changes something exactly when it shortened the list, and leaves no short segment unless only one is left |
| Segments.RefineRound | whisperx_alignment_test/scripts/sentence_segmenter.py:216-255 | one pass is the merge pass after the split pass, and reports a change exactly when a segment was oversized or a merge happened |
| Segments.RefinedStep | whisperx_alignment_test/scripts/sentence_segmenter.py:215-219 | a pass moves the reference `Refined` one pass on, and a pass without change ends it |
| Segments.RefineOutliers | whisperx_alignment_test/scripts/sentence_segmenter.py:212-257 | refining gives `Refined`: split and merge passes repeated while one changes something, at most `max_iterations` times; it keeps every word in order and never empties a list; without iterations nothing changes; otherwise no short segment is left unless it is alone, at most `max_iterations` passes run, and when the loop stopped before its limit no segment is oversized |
| Segments.AssignIds | whisperx_alignment_test/scripts/sentence_segmenter.py:282-284 | every segment is numbered by its position from 1, and nothing else about it changes |
| Segments.SumBounds | whisperx_alignment_test/scripts/sentence_segmenter.py:300-302 | a sum of counts between two bounds lies between the bounds times the number of counts |
| Segments.SquaredDeviations | whisperx_alignment_test/scripts/sentence_segmenter.py:303 | a sum of squared deviations is never negative |
| Segments.Variance | whisperx_alignment_test/scripts/sentence_segmenter.py:303 | the variance is never negative |
| Segments.MinOf | whisperx_alignment_test/scripts/sentence_segmenter.py:308 | the minimum is one of the counts and no count is below it |
| Segments.MaxOf | whisperx_alignment_test/scripts/sentence_segmenter.py:309 | the maximum is one of the counts and no count is above it |
| Segments.MeanWithin | whisperx_alignment_test/scripts/sentence_segmenter.py:302 | the mean lies between any bounds of the counts |
| Segments.EvaluateSegments | whisperx_alignment_test/scripts/sentence_segmenter.py:287-312 | no segments give zero statistics; otherwise the minimum and maximum are attained counts bounding every count, the mean lies between them, the spread is never negative, and a single segment has no spread; the interval and the number of segments are recorded |
| SplitChapters.GroupsChunked | scripts/split_chapters.py:105-127 | the greedy chunking of pieces keeps every piece in order, and every chunk obeys the rules: it was closed on reaching the target, or before a piece that would pass the maximum once it held the minimum, and no prefix of it reached the target |
| SplitChapters.FoldSound | scripts/split_chapters.py:107-124 | every state of the chunking loop holds exactly the pieces seen so far, and its closed chunks are sound |
| SplitChapters.Collapsed | scripts/split_chapters.py:95-97 | the stripped, whitespace-collapsed paragraph has no leading, trailing or repeated whitespace, and is empty exactly when the paragraph is blank |
| SplitChapters.SplitLongRoundTrip | scripts/split_chapters.py:88-129 | a blank paragraph comes back as itself; otherwise the chunks are non-empty and trimmed, and joined with single spaces they give back the whitespace-collapsed paragraph |
| SplitChapters.SplitLongChunks | scripts/split_chapters.py:99-129 | the chunks of a paragraph with words are its sentences grouped by the chunking rules, with nothing dropped or reordered |
| SplitChapters.NonEmptyOnly | scripts/split_chapters.py:129 | every chunk kept is non-empty and one of the inputs |
| SplitChapters.NonEmptyOnlyKeepsAll | scripts/split_chapters.py:129 | when no chunk is empty the filter keeps them all |
| SplitChapters.ChunkSentences | scripts/split_chapters.py:103-127 | the loop over sentences yields the joined chunks of the chunking rules |
| SplitChapters.SplitLongParagraph | scripts/split_chapters.py:88-129 | the method returns the chunks the specification function gives, including the blank-paragraph case |
| SplitChapters.PieceMeaning | scripts/split_chapters.py:137-146 | a blank paragraph is dropped, one within the word limit is kept stripped, and a longer one becomes non-empty chunks that give back its collapsed text |
| SplitChapters.ExpandedClean | scripts/split_chapters.py:132-147 | every paragraph after expansion is non-empty and trimmed |
| SplitChapters.ExpandParagraphs | scripts/split_chapters.py:132-147 | the loop returns the expansion of each paragraph, concatenated in order |
| SplitChapters.MergeFront | scripts/split_chapters.py:162-168 | the first chunk is merged into the second and the sizes follow |
| SplitChapters.MergeBack | scripts/split_chapters.py:179-184 | the chunk at `idx` is appended to its predecessor and the sizes follow |
| SplitChapters.MergeForward | scripts/split_chapters.py:185-189 | the chunk at `idx` is prepended to its successor and the sizes follow |
| SplitChapters.MergePreserves | scripts/split_chapters.py:162-189 | a merge keeps the lists parallel, the paragraphs in order, the total size, sizes equal to word counts, no empty chunk and at least one chunk |
| SplitChapters.SettledMerge | scripts/split_chapters.py:156-191 | a merge at `i` leaves every chunk before `i` settled |
| SplitChapters.FirstPassTurn | scripts/split_chapters.py:157-191 | one turn passes a big enough or lone chunk, or merges as the first loop says, moving `FirstFrom` on without changing its result |
| SplitChapters.FirstPass | scripts/split_chapters.py:156-191 | the first loop gives `FirstFrom`: a small first chunk goes into the second within the maximum, a later one into its predecessor within the maximum, else into its successor within the maximum, else stays; after it every chunk has at least the minimum, is the only chunk, or would pass the maximum if merged with either neighbour; the merges keep the paragraphs and sizes; a chunk over the maximum is one that was handed in; a single chunk is left alone |
| SplitChapters.Micro | scripts/split_chapters.py:193 | the micro threshold is at least 150 and at least a third of the minimum |
| SplitChapters.SecondPassStep | scripts/split_chapters.py:196-210 | one turn of the second loop passes a big enough or lone chunk or merges a small one backwards (the first forwards), moving `SecondFrom` on without changing its result |
| SplitChapters.SecondPass | scripts/split_chapters.py:194-210 | the second loop gives `SecondFrom`: a chunk below the micro threshold goes into its predecessor, the first one into its successor, whatever the size; after it every chunk has at least the micro threshold unless only one chunk is left, and the merges keep the paragraphs and sizes |
| SplitChapters.MergeSmallChunks | scripts/split_chapters.py:150-210 | the result is `SmallMerged`, the second loop run on the first loop's result; after the first loop every chunk is settled and every chunk over the maximum is one handed in; the lists stay parallel, the paragraphs keep their order, the total is unchanged, a single chunk is left alone, and afterwards no chunk of several is below the micro threshold |
| SplitChapters.CollectChunks | scripts/split_chapters.py:220-244 | the collecting loop of `build_chunks` yields the greedy chunks with no minimum, and the sizes are their word counts |
| SplitChapters.WithText | scripts/split_chapters.py:250 | every paragraph kept has text |
| SplitChapters.Normalize | scripts/split_chapters.py:250-251 | a chunk's text always ends in a newline |
| SplitChapters.NormalizeClean | scripts/split_chapters.py:248-252 | for trimmed, non-empty paragraphs a chunk's text is exactly its paragraphs separated by blank lines plus one newline |
| SplitChapters.NormalizeAll | scripts/split_chapters.py:248-252 | each chunk becomes its normalized text, in order |
| SplitChapters.BuildChunks | scripts/split_chapters.py:213-252 | the returned texts are the normalized chunks of `BuiltChunks`, one per chunk in order; the chunks are `BuiltChunks`: the greedy chunks of the paragraphs after `merge_small_chunks`; they hold every paragraph in order, none is empty, each text is its chunk normalized, no chunk of several is below the micro threshold, and there are no chunks exactly when there are no paragraphs |
| SplitChapters.SplitChapter | scripts/split_chapters.py:255-266 | the chunks are `BuiltChunks` of the expanded paragraphs of the text; they hold the expanded paragraphs of the text in order, each text is its paragraphs joined by blank lines plus a newline, no chunk of several is below the micro threshold, and the counts are the chunks' word counts |
| SplitChapters.WordCounts | scripts/split_chapters.py:265 | one count per chunk, each its word count |
| SplitChapters.PlanChunkNames | scripts/split_chapters.py:273-284 | one name per chunk: flat numbering from the start index, the chapter's own name for a single chunk, else `<stem>_part<i>` from 1 |
| SplitChapters.PlanNamesDistinct | scripts/split_chapters.py:273-284 | no two chunks of a chapter get the same file name |
| SplitChapters.WriteChunks | scripts/split_chapters.py:287-310 | each chunk is written under the name the plan gives it, in order, and the returned index is the next free flat number |
| SrtBlocks.Blocks | play_with_subtitles.py:365-366 | the blocks of an SRT text, cut at blank lines after stripping; there is always at least one |
| SrtBlocks.ParseBlocks | play_with_subtitles.py:374-389 | reading succeeds exactly when every block reads without raising, and then yields at most one entry per block |
| SrtBlocks.ParseAll | play_with_subtitles.py:374-389 | the loop over the blocks gives the entries, or the first error, of the specification function |
| SrtBlocks.FirstErrorStands | play_with_subtitles.py:374-389 | once a prefix of the blocks fails, the whole text fails with that same error |
| SrtBlocks.ParseBlocksAllKept | whisperx_alignment_test/scripts/view_srt.py:21-33 | when every block reads as an entry, the entries are those of the blocks, one each and in order |
| SrtTime.Fields | storytelling_cli/status.py:119-126 | the four fields exist exactly when the text has three `:`-pieces and the last of them two `,`-pieces |
| SrtTime.ToSeconds | play_with_subtitles.py:368-371 | a reading only succeeds when the fields exist |
| SrtTime.StampSeconds | storytelling_cli/status.py:128-136 | the fields give seconds exactly when each of the four is an integer |
| SrtTime.ParseSrtTimestamp | storytelling_cli/status.py:115-136 | blank text gives nothing; otherwise the stripped text is read as the timestamp |
| SrtTime.ToSecondsRender | play_with_subtitles.py:368-371 | a clock rendered as `HH:MM:SS,mmm` reads back as its time in seconds |
| SrtTime.ParseRender | storytelling_cli/status.py:115-136 | the status reader also reads a rendered clock back as its time in seconds |
| SrtTime.RenderFields | storytelling_cli/status.py:120-124 | the four fields of a rendered clock are its zero-padded numbers |
| SrtTime.SecondsOfMillis | storytelling_cli/status.py:129-134 | the seconds of the four fields are the milliseconds they add up to, over a thousand |
| Status.AudioDuration | storytelling_cli/status.py:91-112 | a readable WAV gives its frames over its rate (a zero rate read as one); an unreadable WAV gives nothing, without falling back to the MP3; with no WAV there is a duration exactly when the MP3 is readable; a duration is never negative |
| Status.Max1 | storytelling_cli/status.py:97-98 | the rate divided by is at least one and is the rate itself when that is positive |
| Status.EndOf | storytelling_cli/status.py:149-155 | a line without an arrow announces no end time |
| Status.LastFoundIsBottomMost | storytelling_cli/status.py:148-158 | the bottom-most element with a value decides: there is no result exactly when no element has one, and otherwise the result is that element's value and no later element has one |
| Status.LastEndIsBottomMost | storytelling_cli/status.py:148-158 | the bottom-most line that announces an end time decides, and there is none exactly when no line announces one |
| Status.LastSubtitleEnd | storytelling_cli/status.py:148-158 | the bottom-up scan of the lines returns the end time of the specification function |
| Status.Gap | storytelling_cli/status.py:71-73 | a gap exists exactly when both the duration and the subtitle end are known, and added to the subtitle end it gives the duration |
| Status.StatusOf | storytelling_cli/status.py:59-86 | the flags are what exists on disk; a duration only for a chapter with audio; a gap exactly when there is a duration and the subtitles announce an end, equal to the duration less that end |
| Status.ChapterSlugs | storytelling_cli/status.py:45-54 | a chapter is a source stem or an output directory whose name starts with `chapter` |
| Status.ScanChapters | storytelling_cli/status.py:38-88 | every chapter of the book is listed exactly once, in natural order, each with its status |
| Status.StatusesOf | storytelling_cli/status.py:59-86 | the status loop gives one status per slug, in order |
| Status.ListSet | storytelling_cli/status.py:56 | the elements of the set are listed once each |
| Status.DistinctKept | storytelling_cli/status.py:56 | a reordering of a list without repeats has no repeats and the same elements |
| TaskManager.ParseTaskType | server/app/schemas.py:61-64 | a value is accepted only as the stored name of the task type it yields |
| TaskManager.TaskTypeRoundTrip | server/app/services/task_manager.py:181 | a stored task type reads back as the task type it was stored from |
| TaskManager.ToStatus | server/app/services/task_manager.py:24-32 | an empty state is pending; otherwise pending, running and succeeded are exactly their Celery state names in upper case, anything else failed |
| TaskManager.ToStatusCaseBlind | server/app/services/task_manager.py:25 | the status does not depend on the letter case of the state |
| TaskManager.ZuluToOffset | server/app/services/task_manager.py:18-21 | the rewritten stamp never ends in `Z`; a stamp without a trailing `Z` is kept; one with it keeps everything before the `Z` and gains the five characters of the offset |
| TaskManager.StampReadsBack | server/app/services/task_manager.py:18-21 | a stored stamp ending in `Z` reads as the same time at offset `+00:00`, and the rewrite is idempotent |
| TaskManager.Validate | server/app/services/task_manager.py:113-118 | a request is accepted exactly when it is a script task or names both a book and chapters; a missing book is reported before missing chapters |
| TaskManager.EnvValues | server/app/services/task_manager.py:143-144 | the environment overrides keep their keys and order, each value as a string |
| TaskManager.KeyOf | server/app/services/task_manager.py:120-146 | a dictionary key names an option only when it is that option's key |
| TaskManager.NameKeyOf | server/app/services/task_manager.py:120-146 | every option's key names that option |
| TaskManager.EntriesGet | server/app/services/task_manager.py:120-146 | looking an option up among the first assignments finds its expected value when it is among them and nothing otherwise |
| TaskManager.OrderedDistinct | server/app/services/task_manager.py:120-146 | keys in assignment order occur once each |
| TaskManager.AddOption | server/app/services/task_manager.py:122-144 | one conditional assignment adds the option's key and value exactly when the request calls for a value |
| TaskManager.AddSubtitleOptions | server/app/services/task_manager.py:133-141 | the subtitle block adds device, language, word limit and `force`, for subtitle tasks only and only when truthy |
| TaskManager.BuildOptions | server/app/services/task_manager.py:120-146 | the options hold exactly the expected value of each option, each key once, no other key, in assignment order |
| TaskManager.ValidatedOptions | server/app/services/task_manager.py:113-131 | an audio or subtitle request that passes validation is submitted with its book and the output root |
| TaskManager.ElementJsonable | server/app/services/task_manager.py:154 | a path element becomes its text; any other element is kept |
| TaskManager.Jsonable | server/app/services/task_manager.py:150-156 | a path becomes its text, a list or tuple a list of its elements with paths as text, and anything else is kept; no path remains |
| TaskManager.JsonableIdempotent | server/app/services/task_manager.py:148-157 | converting a second time changes nothing |
| TaskManager.EnsureJsonable | server/app/services/task_manager.py:148-157 | the same keys in the same order, each value converted, keys still distinct |
| TaskManager.CountAsWritten | server/app/services/task_manager.py:87-94 | the listing as written never returns more items than the store holds |
| TaskManager.ListAsWritten | server/app/services/task_manager.py:87-94 | the listing as written returns the first items of the store, as many as the count as written |
| TaskManager.ListOverrunsLimit | server/app/services/task_manager.py:87-94 | with a limit of zero or less a non-empty store still yields one item, more than the limit |
| TaskManager.Count | server/app/services/task_manager.py:87-94 | all items without a limit; otherwise never more than the limit, and exactly the limit (none for a negative one) when items are left out |
| TaskManager.List | server/app/services/task_manager.py:87-94 | the listing returns the first items of the store, in its order, never more than the limit |
| TaskManager.CountsAgree | server/app/services/task_manager.py:87-94 | the corrected listing agrees with the code as written whenever the limit is absent or at least one |
| Text.Lower | storytelling_cli/status.py:34 | lower-casing keeps the length and maps each character on its own (ASCII letters only) |
| Text.LowerIsLower | storytelling_cli/status.py:34 | a lower-cased text has no upper-case ASCII letter left |
| Text.LowerStrip | storytelling_cli/status.py:34 | lower-casing changes no whitespace, so it commutes with stripping, and it is idempotent |
| Text.UpperForgetsCase | server/app/services/task_manager.py:25 | upper-casing forgets any earlier lower- or upper-casing |
| Text.RStripShape | preprocess_chapters.py:37 | `rstrip` removes a trailing run of whitespace and nothing else |
| Text.Strip | storytelling_cli/status.py:116 | a stripped text has no whitespace at either end and is no longer than the input |
| Text.StripEmptyIffAllSpace | storytelling_cli/status.py:116-118 | a text strips to nothing exactly when it is all whitespace |
| Text.SplitWsJoin | scripts/split_chapters.py:23-24 | words joined by single spaces split back into the same words |
| Text.SplitJoin | scripts/split_chapters.py:262 | joining the pieces of a split with its separator gives back the text |
| Text.Partition | scripts/rename_book.py:162 | without the separator the head is the whole text and the tail empty; with it the text is head, separator, tail and the head holds no separator |
| Text.Splitlines | storytelling_cli/status.py:148 | no line holds a line boundary, and there are no lines exactly when the text is empty |
| Text.ReplaceAll | scripts/rename_book.py:71 | a text without the pattern is unchanged |
| Text.NatToStringValue | storytelling_cli/status.py:31-32 | the decimal digits of a number read back as that number |
| Text.ParseInt | storytelling_cli/status.py:130-133 | a non-empty string of digits reads as the number it spells |
| Text.ParseIntOfNat | storytelling_cli/status.py:130-133 | a written natural number reads back as itself |
| Text.IntToStringInjective | generate_script.py:123-124 | different numbers are written differently |
| Text.ZeroPadValue | storytelling_cli/status.py:130-133 | a zero-padded number is all digits and reads back as the number |
| Text.CommaParts | storytelling_cli/__main__.py:414 | every part kept is stripped, non-empty and free of commas |
| Text.CommaPartsJoin | storytelling_cli/__main__.py:414 | clean names written as a comma-separated list read back as the same names |
| TextCleaner.CollapseRuns | whisperx_alignment_test/scripts/text_cleaner.py:36 | every run of whitespace becomes exactly one space: the result has no two adjacent spaces and no other whitespace, is empty exactly when the input is, and starts as the input does |
| TextCleaner.Cleaned | whisperx_alignment_test/scripts/text_cleaner.py:36-41 | the cleaned text has no whitespace at either end and single spaces inside, and is empty when the input is all whitespace |
| TextCleaner.BreakFrom | whisperx_alignment_test/scripts/text_cleaner.py:55 | the first place the sentence split can cut: whitespace right after `.`, `!` or `?`, with no such place before it |
| TextCleaner.RegexSplit | whisperx_alignment_test/scripts/text_cleaner.py:55 | the split always yields at least one piece |
| TextCleaner.NonBlank | whisperx_alignment_test/scripts/text_cleaner.py:58 | every sentence kept is non-empty and stripped, and there are no more than pieces |
| TextCleaner.SplitIntoSentences | whisperx_alignment_test/scripts/text_cleaner.py:44-60 | no sentence is empty or padded with whitespace |
| TextCleaner.SentencesRoundTrip | whisperx_alignment_test/scripts/text_cleaner.py:44-60 | on cleaned text, the sentences joined with single spaces give back the text, and there are none exactly when the text is empty |
| TextCleaner.LongSentenceAlone | whisperx_alignment_test/scripts/text_cleaner.py:85-97 | a sentence over the limit always forms a segment of its own |
| TextCleaner.PackStep | whisperx_alignment_test/scripts/text_cleaner.py:85-97 | one turn of the packing loop closes the open group when the sentence would pass the limit and the group is non-empty, then adds the sentence, keeping the groups packed |
| TextCleaner.Pack | whisperx_alignment_test/scripts/text_cleaner.py:81-101 | the segments are the texts of `PackedGroups`, the greedy packing turn by turn (`PackTurn`); the segments hold every sentence in order, each segment is its sentences joined by spaces, no segment is empty, a segment of several sentences keeps within the limit, and each segment was closed only because the next sentence would have passed it |
| TextCleaner.GroupsNonEmpty | whisperx_alignment_test/scripts/text_cleaner.py:100-101 | every segment text is non-empty when every sentence is, and there are no segments exactly when there are no sentences |
| TextCleaner.PrepareSegments | whisperx_alignment_test/scripts/text_cleaner.py:63-103 | the segments are the texts of `PackedGroups` of the cleaned text's sentences, none empty; joined by single spaces they give back the cleaned text; there are none exactly when it is empty |
| TextGridToSrt.ExtractIntervalTokens | mfa_lab/textgrid_to_srt.py:37-56 | a grid without a `words` tier fails; otherwise the tokens and spans of its intervals, with no more spans than tokens or intervals |
| TextGridToSrt.TranscriptTokens | mfa_lab/textgrid_to_srt.py:59-66 | the token objects hold the transcript's tokens, none with an interval yet |
| TextGridToSrt.AssignIntervals | mfa_lab/textgrid_to_srt.py:179-189 | the matching loop stores each matched reference's interval in its token object and leaves the tokens themselves unchanged; the counts are the matched and missing references |
| TextGridToSrt.InheritIntervals | mfa_lab/textgrid_to_srt.py:191-196 | the sweep leaves the tokens unchanged and gives every position its propagated interval: a non-word token without one takes the last interval seen |
| TextGridToSrt.SweepResult | mfa_lab/textgrid_to_srt.py:191-196 | a sweep that kept every token and filled each position with its propagated interval has the propagation's result |
| TextGridToSrt.GenerateSrt | mfa_lab/textgrid_to_srt.py:136-152 | the lines are the blocks of the tokens that have an interval, numbered from one |
| TextGridToSrt.GenerateStep | mfa_lab/textgrid_to_srt.py:138-151 | a token with an interval adds its block, numbered one past the blocks so far; one without adds nothing |
| TextGridToSrt.AlignAndExport | mfa_lab/textgrid_to_srt.py:174-200 | matched and missing add up to the number of word tokens, the alignment stays in bounds, and the text written is the blocks of the final intervals |
| TextGridToSrt.ExportSrt | mfa_lab/textgrid_to_srt.py:155-200 | the four aborts in order (no `words` tier, no interval tokens, no script tokens, no word tokens), success exactly when none applies, and then the export above, whose entries never show an earlier interval than the entry before |
| Timestamps.ClockOf | alignment/mfa.py:282-285 | the clock taken from a number of milliseconds has every field in range and shows exactly that number |
| Timestamps.ClockFields | alignment/mfa.py:282-284 | hours, minutes, seconds and milliseconds taken from a total add back up to it and stay in range |
| Timestamps.ClockUnique | alignment/mfa.py:295 | a clock with every field in range is determined by the milliseconds it shows, so its rendering is the rendering of that number |
| Timestamps.RoundHalfEven | alignment/mfa.py:285 | Python's `round`: within half of the input, and an exact half goes to the even neighbour; the same rounding serves the summary targets of `preprocess_chapters.py:210` |
| Timestamps.Clamp | alignment/mfa.py:281 | the clamped time is never negative and a non-negative time is kept |
| Timestamps.RoundedMillis | alignment/mfa.py:281-285 | the milliseconds shown are never negative |
| Timestamps.CarryClock | alignment/mfa.py:281-294 | after the millisecond, second and minute carries every field is in range, the hour is not negative, and the clock shows exactly the clamped time rounded to the millisecond |
| Timestamps.WholeSeconds | alignment/mfa.py:282-284 | hours, minutes and seconds taken from whole seconds add back up to them, minutes below 60 |
| Timestamps.FormatRounded | mfa_lab/textgrid_to_srt.py:118-133 | the text is the rendering of the unique in-range clock of the clamped, rounded milliseconds |
| Timestamps.TruncatedClock | whisperx_alignment_test/scripts/align_audio.py:173-176 | the truncating formatter's fields are in range and show the time cut down to whole milliseconds |
| Timestamps.FormatTruncated | whisperx_alignment_test/scripts/align_audio.py:171-177 | the text is the rendering of the in-range clock of the time cut down to whole milliseconds, without a clamp |
| Timestamps.RoundingVersusTruncation | whisperx_alignment_test/scripts/align_audio.py:176 | the two formatters differ: 1.5 ms shows as 2 ms when rounded and 1 ms when truncated |
| ScriptTokens.Normalize | alignment/mfa.py:206 | the normalized form keeps only letters and apostrophes, lower-cased, and is no longer than the fragment |
| ScriptTokens.NormalizeEmpty | alignment/mfa.py:206-207 | a fragment normalizes to nothing exactly when it has no letter or apostrophe |
| ScriptTokens.TokenRuns | alignment/mfa.py:19 | every match of the token pattern is a non-empty run of letters and apostrophes |
| ScriptTokens.TokenRunsCover | alignment/mfa.py:223 | the matches are exactly the token characters of the label, cut at every other character: nothing is lost or reordered |
| ScriptTokens.Tokenize | mfa_lab/textgrid_to_srt.py:18-19 | one lower-cased, non-empty token per match, in order |
| ScriptTokens.TokenizeTranscript | alignment/mfa.py:202-208 | one token per whitespace-separated fragment of each line, in order |
| ScriptTokens.TranscriptTokens | alignment/mfa.py:202-208 | every token carries a non-blank fragment, and it is a word exactly when the fragment has a letter or an apostrophe |
| ScriptTokens.IntervalPieces | alignment/mfa.py:226-227 | the tokens of one interval share its start and end and are non-empty |
| ScriptTokens.ExtractOne | alignment/mfa.py:219-227 | a blank or bracketed label contributes nothing; any other label contributes its lower-cased matches in order, each with the interval's times |
| ScriptTokens.ExtractTokensAppend | alignment/mfa.py:219-228 | extraction runs interval by interval: the tokens of two runs of intervals are the tokens of each, concatenated |
| ScriptTokens.SpansBounded | mfa_lab/textgrid_to_srt.py:44-55 | there is at most one span per interval and no more spans than tokens |
| ScriptTokens.WordIndices | alignment/mfa.py:304 | the positions of exactly the word tokens, strictly increasing |
| ScriptTokens.Reference | alignment/mfa.py:353 | the reference holds the normalized form of each word token, in order |
| ScriptTokens.Hypothesis | alignment/mfa.py:354 | the hypothesis holds each interval token's text, in order |
| ScriptTokens.AssignMatches | alignment/mfa.py:310-318 | after the matching loop a word token is mapped to interval token `h` exactly when its reference index is paired with `h`; every other position is unmapped |
| ScriptTokens.MatchedPlusMissing | alignment/mfa.py:310-318 | every reference word is counted as matched or missing, once |
| ScriptTokens.LastSome | alignment/mfa.py:320-324 | there is a last interval seen exactly when some earlier position is mapped, and it is one of the mapped intervals |
| ScriptTokens.PropagateStep | alignment/mfa.py:320-326 | one position of the sweep: a mapped position becomes the last interval seen, an unmapped non-word takes the last interval seen, and nothing else changes |
| ScriptTokens.PropagateFacts | alignment/mfa.py:320-326 | word tokens are never back-filled, a mapped position keeps its interval, and a non-word before the first mapped token stays unmapped |
| ScriptTokens.PropagateFromMapped | alignment/mfa.py:320-326 | every interval the sweep hands out was already mapped somewhere |
| ScriptTokens.LastSomeAt | alignment/mfa.py:320-324 | the last interval seen sits at a mapped position with nothing mapped after it |
| ScriptTokens.PropagatedFrom | alignment/mfa.py:320-326 | every interval the sweep gives a position comes from a mapped position at or before it, with nothing mapped in between |
| ScriptTokens.PropagateInOrder | alignment/mfa.py:320-326 | the sweep keeps a mapping whose intervals never go backwards along the script in that order |
| ScriptTokens.PairsInOrder | alignment/mfa.py:310-318 | in a monotone alignment the pair with the smaller reference index has the smaller hypothesis index |
| ScriptTokens.MappedInOrder | alignment/mfa.py:310-318 | a mapping that follows a monotone alignment through increasing word positions never goes backwards |
| ScriptTokens.AlignmentMapsInOrder | alignment/mfa.py:310-318 | the matching loop, run on a monotone alignment of all the words, maps them in order |
| ScriptTokens.AssignInOrder | alignment/mfa.py:304-318 | for the aligner's own output, the matching loop maps word tokens to intervals that never go backwards along the script |
| ScriptTokens.MappedPositions | alignment/mfa.py:330-333 | the positions of the mapped tokens, once each, in script order |
| ScriptTokens.Entries | alignment/mfa.py:328-338 | one entry per mapped token, numbered from one in script order, with the token's own fragment and the times of the interval it shows |
| ScriptTokens.EntryIntervals | alignment/mfa.py:328-333 | the interval each entry shows, one per mapped token, each one of the mapped intervals |
| ScriptTokens.EntriesChronological | alignment/mfa.py:328-338 | when the tier's intervals start in time order, the entries start in time order too, given a mapping in order |
| ScriptTokens.EntriesSnoc | alignment/mfa.py:328-338 | each further mapped token adds one entry, numbered next |
| ScriptTokens.AssignInBounds | alignment/mfa.py:310-318 | the matching loop only stores interval indices that occur in the alignment |
| ScriptTokens.FinalIntervals | alignment/mfa.py:310-326 | after both loops every position is mapped to an interval index within the interval tokens, or to none |
| ScriptTokens.FinalIntervalsInOrder | alignment/mfa.py:304-326 | for the aligner's own output, after both loops a token never shows an earlier interval than a token before it |
| ScriptTokens.WordMappedIffPaired | alignment/mfa.py:298-340 | for the aligner's own output, a word token ends up mapped to interval token `h` exactly when its reference word is paired with `h`, and matched plus missing is the number of word tokens |
| ScriptTokens.AlignmentInBounds | alignment/mfa.py:231-277 | an alignment of `n` and `m` words mentions only indices below them |
| Translation.Target | server/app/services/translation.py:85 | the target is the given language, or the default when none is given, stripped |
| Translation.CaseBlindKeys | server/app/services/translation.py:90 | language codes that differ only in letter case share a cache entry |
| Translation.OrElse | server/app/services/translation.py:126 | `x or y`: a non-empty value is kept, an empty or missing one gives the fallback |
| Translation.Outcome | server/app/services/translation.py:111-126 | a failed request and an empty reply are errors; success exactly when the first item has non-empty text, which is then the translation; the detected language falls back to the stripped source and is never empty |
| Translation.AnsweredStores | server/app/services/translation.py:92-135 | after a request the cache keeps within its capacity with each key once; a success leaves its translation under its key; a fresh translation is non-empty; no other key's entry changes |
| Translation.TranslationService.constructor | server/app/services/translation.py:30-41 | the cache starts empty and a capacity below one is raised to one |
| Translation.TranslationService.Translate | server/app/services/translation.py:75-135 | blank text and a missing target are refused without a request or a cache change; otherwise the request is answered from the cache (moved to newest) or by the client, and the cache is updated and pruned |
| Translation.TranslationService.PruneCache | server/app/services/translation.py:137-139 | the cache keeps its newest entries up to the capacity |
| ViewSrt.ParseSrt | whisperx_alignment_test/scripts/view_srt.py:12-35 | the entries are those of the shared block loop over the stripped text cut at blank lines, each block read by `parse_srt`'s block reader |
| ViewSrt.ParseBlockOf | whisperx_alignment_test/scripts/view_srt.py:22-33 | a trimmed block of three lines reads as the entry its ordinal, time line and text give |
| ViewSrt.ParseBlockRoundTrip | whisperx_alignment_test/scripts/view_srt.py:22-33 | a block laid out as the SRT writers lay it out reads back as its ordinal, its two timestamps exactly as written, and its text |
| ViewSrt.WrittenLines | whisperx_alignment_test/scripts/view_srt.py:22 | a written block is trimmed and splits into exactly its three lines |
| ViewSrt.FormatRendered | whisperx_alignment_test/scripts/view_srt.py:38-48 | a rendered clock shows as `M:SS.mmms` with positive minutes and `SS.mmms` otherwise |
| ViewSrt.FormatPieces | whisperx_alignment_test/scripts/view_srt.py:41-48 | a time whose seconds field holds one comma shows its minutes and its seconds with a point instead |
| ViewSrt.FormatIgnoresHours | whisperx_alignment_test/scripts/view_srt.py:41-48 | the display does not depend on the hours |
| ViewSrt.DetailedWindowShows | whisperx_alignment_test/scripts/view_srt.py:86-88 | for a 1-based start and a non-negative count the window is the next `count` entries from the start, cut short at the end |
| ViewSrt.DetailedWindowFromZero | whisperx_alignment_test/scripts/view_srt.py:86-88 | a start of 0 is read from the end: with a count beyond the length the window is the last entry alone |
| ViewSrt.Hits | whisperx_alignment_test/scripts/view_srt.py:102-106 | there are never more hits than entries |
| ViewSrt.SearchWord | whisperx_alignment_test/scripts/view_srt.py:102-106 | the matching loop returns the hits of the specification function |
| ViewSrt.HitsExactly | whisperx_alignment_test/scripts/view_srt.py:102-106 | an entry is found exactly when it is one of the entries and its text holds the keyword, ignoring case |
| ViewSrt.HitsInOrder | whisperx_alignment_test/scripts/view_srt.py:102-106 | the hits keep file order: they are the entries at strictly increasing positions |
| ViewSrt.HitsIgnoreKeywordCase | whisperx_alignment_test/scripts/view_srt.py:105 | the search ignores the case of the keyword |
| ViewSrt.HitsSameTest | whisperx_alignment_test/scripts/view_srt.py:105 | keywords that agree once lower-cased find the same entries |
| VoiceUtils.Flatten | voice_utils.py:17-29 | every name is non-empty and stripped; a text gives its stripped, non-empty comma-separated parts; anything but a text, list, tuple or set gives none |
| VoiceUtils.FlattenItemsMembers | voice_utils.py:24-28 | a name is offered by a list exactly when one of its items offers it |
| VoiceUtils.FlattenRoundTrip | voice_utils.py:17-29 | the flattened names written back as one comma-separated text or as a list of texts flatten to the same names |
| VoiceUtils.OneName | voice_utils.py:21-23 | a single clean name written as a text flattens to itself |
| VoiceUtils.ExplicitVoice | voice_utils.py:71-72 | the voice text joins the pool only when it is non-empty once stripped and not `random` in any case, and then stripped |
| VoiceUtils.Gathered | voice_utils.py:57-72 | every gathered candidate is non-empty and stripped |
| VoiceUtils.FixedVoice | voice_utils.py:92-96 | fixed mode uses the stripped voice text when there is one and `Aoede` otherwise, never an empty name |
| VoiceUtils.ChooseNarratorVoice | voice_utils.py:32-96 | random mode is decided by the voice list, a random marker, the mode or the flag; in random mode the voice is drawn from the non-empty pool; in fixed mode the pool is empty and the voice is the fixed one |
| VoiceUtils.DropRepeats | voice_utils.py:77-84 | the loop that drops repeats keeps the first occurrence of each candidate, in order |
| VoiceUtils.PoolShape | voice_utils.py:74-87 | the pool is never empty, holds no name twice, and every name in it is non-empty and stripped, so the error for an empty pool cannot be raised |
| VoiceUtils.PoolFallback | voice_utils.py:74-75 | with no candidate from any source the pool is the default pool, in its order |
| VoiceUtils.PoolOffersGathered | voice_utils.py:77-84 | otherwise the pool offers exactly the gathered names, each once, in the order of their first mention |
| VoiceUtils.ConfiguredVoicesOffered | voice_utils.py:67-72 | in random mode an explicit voice text, every configured candidate and every choice is in the pool |
| VoiceUtils.MarkerLower | voice_utils.py:46-51 | each random marker reads `random` once lower-cased |
| VoiceUtils.ListOrMarker | voice_utils.py:57-72 | a voice list always means random selection among its names, and a random marker as the voice text never joins the pool |
| Server.RangeBounds | server/app/main.py:496-501 | a range read is always within the file: `0 <= start <= end < size` |
| Server.ParseRangeHeader | server/app/main.py:491-504 | a range read is within the file, and a unit other than `bytes` (after stripping and lower-casing) gives none |
| Server.StartNotNegative | server/app/main.py:496-497 | a start without a minus sign never reads as negative |
| Server.BytesHeader | server/app/main.py:493-495 | a header with the `bytes` unit is read by its range |
| Server.BoundsWritten | server/app/main.py:496-501 | the range `a-b` a client sends for bytes within the file reads back as those bytes |
| Server.RangeHeaderWritten | server/app/main.py:491-504 | the header `bytes=a-b` for bytes within the file reads back as those bytes |
| Server.OpenEndedRange | server/app/main.py:498 | `bytes=a-` runs from `a` to the last byte |
| Server.SuffixRangeFromStart | server/app/main.py:497 | `bytes=-n` is read as bytes 0 to `n`, not as the last `n` bytes |
| Server.MultipleRangesRefused | server/app/main.py:498-504 | a header naming a second range after a comma is refused |
| Server.NotIntWithComma | server/app/main.py:498 | `int()` refuses text with a comma in it |
| Server.Span | server/app/main.py:478-488 | the bytes from start to end inclusive, when the file has them |
| Server.Read | server/app/main.py:484 | a read returns at most the size asked for, something when the handle is before the end, and the file's bytes from the position |
| Server.IterFile | server/app/main.py:478-488 | the chunks are each at most the chunk size and together are the file's bytes from start to end, cut short where the file ends |
| Server.ChunkStep | server/app/main.py:482-488 | one more non-empty read extends the bytes read so far by exactly that chunk |
| Server.SpanDone | server/app/main.py:482-486 | reading stops with the whole span read: the end was reached or the file ran out before it |
| Server.PartialResponse | server/app/main.py:247-262 | an unreadable range is answered with 416 exactly when the header gives no range; otherwise 206 with the content range, the length and the range's bytes |
| Server.RiffRange | server/app/main.py:247-262 | a request for the first four bytes of a WAV file gets its `RIFF` tag |
| Server.PublicGcsUrl | server/app/main.py:47-57 | a URL exists exactly for a non-empty web URL or `gs://` URI, and a web URL passes through unchanged |
| Server.GcsNotWeb | server/app/main.py:50-52 | a `gs://` URI is not a web URL |
| Server.PublicObjectUrl | server/app/main.py:52-56 | an object URI maps to the public URL of the same bucket and path |
| Server.PublicBucketUrl | server/app/main.py:52-55 | a bucket URI maps to the public URL of the bucket |

## Left out

- ScriptTokens.IsTokenChar: Python's `str.isalpha()` is Unicode-wide, but the model accepts only the ASCII letters and the apostrophe. A fragment such as "你好" is a word in the source and a non-word here. The Unicode letter tables are not modelled.
- ScriptTokens.Normalize: keeps ASCII letters only and lower-cases them by the ASCII rule, so "Café" normalises to "caf" here and to "café" in the source. The cause is the same as for IsTokenChar.
- Text.Upper: ASCII-only `str.upper()`. Non-ASCII letters are kept as written, and so is `ß`, which Python turns into `SS`. This affects TaskManager.ToStatus, whose states are ASCII words.
- Text.Lower: ASCII-only `str.lower()`. Non-ASCII capitals are kept as written. This affects ViewSrt.SearchWord and NaturalSort.NaturalKey.
- Text.ParseInt: accepts an optional sign and ASCII digits, surrounded by whitespace. Python's `int()` also accepts `_` between digits (`int("1_0")` is 10) and non-ASCII decimal digits. The model returns None for both.
- Text.IsDigit: the ASCII digits only. Python's `\d` and `str.isdigit()` also accept other Unicode digits. This affects NaturalSort.DigitSplit, NaturalSort.NaturalKey and GenerateScript.TagAt.
- Timestamps.RoundedMillis and the other time computations: times, averages and ratios are exact `real` numbers. Binary rounding of Python floats is not modelled. Where formatting rounds or truncates, the model does so on the exact value.
- Segments.EvaluateSegments: the population standard deviation is carried as the population variance. Comparisons against `max_std_chars` are made against its square. This gives the same answer for every non-negative bound. SegmentSearch follows the same rule.
- PyValues.Repr: a set is its elements in iteration order. Python's hash-dependent iteration order of a set is not modelled. A string is always written between `'` quotes with nothing escaped, whereas Python switches to `"` quotes when the text holds a `'` and no `"`, and escapes backslashes, newlines and non-printable characters. These differences reach Explanation.EnsureString and TaskManager.EnvValues.
- VoiceUtils.ChooseNarratorVoice: `rng.choice` is replaced by a caller-supplied index, taken modulo the pool size.
- Text.ReplaceAll: requires a non-empty pattern. Python's `replace` with an empty pattern inserts between characters, and no modelled caller passes one (RenameBook.ReplaceStrings skips empty patterns, as its source does).
- Explanation.ExplanationService and Translation.TranslationService: a cache key is the payload the source hashes with SHA-256. The digest is taken to be injective.
- Explanation.ExplanationService: the Gemini request and `_extract_text` are not modelled. The reply text and `json.loads` are parameters.
- Translation.TranslationService.Translate: the Google Translate client is not modelled. Its reply is a parameter.
- TaskManager.List: Celery, the task store's files and `_build_detail` are not modelled. `datetime.fromisoformat` itself is not modelled; TaskManager.ZuluToOffset models only the rewrite before it.
- TextCleaner.Cleaned: the regular-expression removal passes of `clean_script_for_alignment` are not modelled. Only the whitespace tail that follows them is.
- GenerateScript.CleanSpeakerTags: the speaker-tag pattern `</?Person\d+>` is modelled by GenerateScript.TagAt and GenerateScript.RemoveTags, with `\d` read as an ASCII digit (see Text.IsDigit); a tag numbered with other Unicode digits is kept where Python would drop it.
- GenerateScript.ResolveBookConfig: `load_summary_map` (generate_script.py:145-168), the summaries index file, the language model call and the writing of scripts are not part of this model.
- PreprocessChapters.ExistingOf: records the chapter's file name where the source records its path; the folder is the same for every entry.
- PreprocessChapters.Plan: the summaries themselves and the writing of `summaries_index.json` are not modelled.
- EmbedTags.AddPauseTags and EmbedTags.AddVoiceEffects: the random analysis that chooses pause and effect points is not modelled. The chosen points are inputs.
- IntegratedPodcast.LengthParameters: takes a whole number of minutes; the source's float targets between whole minutes are not modelled.
- IntegratedPodcast.DetectInputType: fetching YouTube, web and PDF content, the language model, speech synthesis and the instruction text beyond its length band are not part of this model.
- GcsMirror.ShouldDownload: `sync`, the download loop and the Cloud Storage client (gcs_mirror.py:63-120) are not modelled. File stat values are inputs.
- Server.PartialResponse: models the ranged branch of `stream_chapter_audio`. The full-body branch without a `Range` header (main.py:263-275) and the book and chapter lookups are not modelled.
- PlayWithSubtitles.KeyListener.PollKey: the Windows `msvcrt` branch of `poll_key` is not modelled, nor are the terminal mode, the mpv process, its IPC socket or the threads.
- ViewSrt.ParseSrt: `view_srt_timeline` only prints, and is not modelled. Printing in the other views is not modelled either.
- RenameBook.PlanRename: it does not undo anything. When the new output folder is taken, the source raises after `shutil.move` has renamed the data folder, so the book is left half renamed: the data folder has the new id, while the output folder, the JSON files and `.env` still name the old one. The model states this through RenameBook.FolderMoves and does not repair it.
- RenameBook.GatherBookMetadata: `dict()` of defaults or overrides that are not a dictionary is an error here. Python would accept some other iterables of pairs.
- AlignmentWords.FlattenAlignmentWords: a word whose end is before its start gets its end clamped to its start. This follows the code: such a word is kept with its end clamped, not dropped.
- RenameBook.TransformPayload and the rest of the model: file I/O is left out. Reading and writing files, directory globbing, moving directories, path normalisation and the recursive walk over JSON files in RenameBook are not modelled. What a read would return is a parameter, and what a write would store is a result.

## Findings

| source | as written | input that shows it | evidently intended | confidence | as-written member | corrected member |
|---|---|---|---|---|---|---|
| server/app/services/task_manager.py:87-94 | `list` appends an item before comparing the count with `limit` | `limit=0` (or any limit below 1) on a store with at least one task returns one task | at most `limit` tasks | not executed | TaskManager.ListAsWritten (TaskManager.ListOverrunsLimit) | TaskManager.List (TaskManager.Count, TaskManager.CountsAgree) |
