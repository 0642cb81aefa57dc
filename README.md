# Email-to-dataset pipeline, modelled and verified in Dafny

This project models the data pipeline of a tool that turns a Gmail mailbox into
a fine-tuning dataset of chat examples. It covers four parts:

- **Body sanitiser and classifier** (`lib/email_cleaner.py`), in modules
  `Sanitizer` and `Classifier`.
  - Three text transforms: quote stripping, signature stripping and metadata
    stripping.
  - The cascade of rejection tests combined by `is_meaningful`.
  - The synthetic instruction chosen for mail that answers nothing.
- **Conversation builder** (`Conversation`): the part of `process_mbox` that
  runs after each message has been read.
  - It routes each cleaned, meaningful message by sender into `outbound` or
    `inbound`.
  - It deduplicates outbound mail by Message-ID with Python dict semantics.
  - It pairs each reply with its parent through In-Reply-To.
- **Generic-prompt refiner** (`PromptEnhancer`), from `lib/prompt_enhancer.py`.
  - It finds examples whose user prompt is one of the generic prompts.
  - It sends their assistant bodies to a remote model in batches.
  - It parses the numbered replies, pads a short result and rewrites only the
    user half of those examples.
- **Splitter and token estimate** (`Splitting`): `split_dataset` and the
  integer part of `estimate_cost`. `prepare_data.py` and `ui/shared.py` define
  these with the same code, so one module models both.

Shared modules:
- `Text`: the Python string operations used (`strip`, `lower`, `split`,
  `splitlines`, `join`, `find`, `in`).
- `Config`: the constants of `lib/config.py`.
- `TrainingFormat`: the chat-example format.

Form of the model:
- The pure code becomes functions with lemmas about them.
- The loops become methods proved against those functions:
  - the metadata line filter;
  - the mailbox scan, the deduplication and the pairing loop;
  - the reply parser, the batch loop, the padding loop and the replacement loop;
  - the in-place shuffle on an array;
  - the nested token loop.
- The remote model is a `Client` object. It logs every request and answers
  with a fixed function of the batch.

## Model

| member | source | states |
|---|---|---|
| Text.Strip | lib/email_cleaner.py:71 | `str.strip()`: the result has no whitespace at either end, is no longer than the input, and is empty exactly when the input is all whitespace |
| Text.StripSlice | lib/email_cleaner.py:71 | the stripped text is the slice of the input between its leading and its trailing whitespace, and everything after it is whitespace |
| Text.StripTrimmed | lib/email_cleaner.py:71 | stripping a text with no whitespace at either end gives it back |
| Text.SplitLines | lib/email_cleaner.py:66 | `splitlines()`: no line it returns holds a line break |
| Text.JoinSplitLines | lib/email_cleaner.py:66 | joining the lines of a text that breaks lines only with `\n`, and does not end with one, with `\n` gives the text back |
| Text.SplitOn | lib/prompt_enhancer.py:50 | `split('\n')` returns at least one part, and no part holds the separator |
| Text.SplitOnJoin | lib/prompt_enhancer.py:50 | splitting a join on the separator gives the parts back, when no part holds the separator |
| Text.Find | lib/email_cleaner.py:77-78 | `find`: a found position is an occurrence and no earlier position is one; with none found there is no occurrence at all |
| Text.ContainsIff | lib/email_cleaner.py:77 | `p in s` holds exactly when `p` occurs at some position |
| Text.NotContainsSlice | lib/email_cleaner.py:77-78 | a text without `p` has no `p` in any slice |
| Text.Words | lib/email_cleaner.py:150 | `split()`: every word is non-empty and holds no whitespace |
| Text.WordsOfSpace | lib/email_cleaner.py:150 | a text made only of whitespace has no words |
| Text.Lower | lib/email_cleaner.py:144 | `lower()` keeps the length (case folding is ASCII only) |
| Text.LowerAppend | lib/email_cleaner.py:144 | lower-casing distributes over concatenation |
| Text.NatToString | lib/prompt_enhancer.py:34-38 | the number in front of each line of the numbered reply format the instruction asks for is non-empty and made of digits only; it builds the replies of PromptEnhancer.ParseNumberedReply |
| TrainingFormat.FirstWithRole | lib/prompt_enhancer.py:91-92 | the position of the first message with the role, or the list's length when none has it |
| TrainingFormat.PairContents | lib/email_cleaner.py:347-360 | the first user and first assistant contents of a built pair are its two halves |
| Sanitizer.UnquotedLines | lib/email_cleaner.py:66 | every surviving line is an input line that is not quoted |
| Sanitizer.FirstOnWrote | lib/email_cleaner.py:68 | the first position where `On .+?wrote:` matches, with no match before it |
| Sanitizer.FirstOnWeekday | lib/email_cleaner.py:70 | the first position where `\n\s*On\s+\w+,` matches, with no match before it |
| Sanitizer.StripQuotedUnquoted | lib/email_cleaner.py:63-71 | no line of the `strip_quoted` result starts with `>` after its indentation |
| Sanitizer.StripQuotedNoReplyHeader | lib/email_cleaner.py:68-71 | the result holds no `On …wrote:` match and no `\n On <word>,` match |
| Sanitizer.StripQuotedNewlines | lib/email_cleaner.py:66-71 | the result is trimmed and breaks lines only with `\n` |
| Sanitizer.QuoteFreeLines | lib/email_cleaner.py:66 | text whose every `>` has text before it on its line has no quoted line |
| Sanitizer.StripQuotedKeepsClean | lib/email_cleaner.py:63-71 | trimmed text with `\n` breaks, no quoted line and no reply header passes through unchanged |
| Sanitizer.StripQuotedIdempotent | lib/email_cleaner.py:63-71 | `strip_quoted` applied twice equals applying it once |
| Sanitizer.BeforeDashDash | lib/email_cleaner.py:77-78 | the prefix before the first `--` holds no `--`, and the `--` stands right after it when there is one |
| Sanitizer.LineEnd | lib/email_cleaner.py:80 | the end of the `.+` run of `Sent from my .+`: the first newline at or after the position, or the end |
| Sanitizer.RemovalLeavesNoMatch | lib/email_cleaner.py:80 | after the removal no `Sent from my .+` match is left |
| Sanitizer.RemovalAddsNoDashDash | lib/email_cleaner.py:80 | the removal creates no `--` |
| Sanitizer.RemovalKeepsClean | lib/email_cleaner.py:80 | without a match the removal changes nothing |
| Sanitizer.StripSignatureSound | lib/email_cleaner.py:74-81 | the `strip_signature` result is trimmed, holds no `--` and no `Sent from my …` match |
| Sanitizer.StripSignatureKeepsClean | lib/email_cleaner.py:74-81 | trimmed text without `--` or `Sent from my …` passes through unchanged |
| Sanitizer.StripSignatureIdempotent | lib/email_cleaner.py:74-81 | `strip_signature` applied twice equals applying it once |
| Sanitizer.SignatureDelimiterCuts | lib/email_cleaner.py:77-78 | everything from the first `--` on is dropped, whatever follows it |
| Sanitizer.DashDashInsideTextCuts | lib/email_cleaner.py:77-78 | a `--` inside running text also cuts the body: "Meet at 10--11 tomorrow" becomes "Meet at 10" |
| Sanitizer.RemoveSeparatorsShortRuns | lib/email_cleaner.py:87 | after `_{20,}` is removed no run of 20 underscores is left |
| Sanitizer.RemoveSeparatorsNoUnderscore | lib/email_cleaner.py:87 | text without underscores is left as it is |
| Sanitizer.StripEmailMetadata | lib/email_cleaner.py:84-108 | the line loop returns the stripped join of the kept lines, and the result is trimmed |
| Sanitizer.KeptLinesExactly | lib/email_cleaner.py:93-105 | a line is kept exactly when it is an input line and is no header, caution or warning line |
| Sanitizer.KeptLinesAppend | lib/email_cleaner.py:93-105 | filtering distributes over concatenation, so kept lines keep their relative order |
| Sanitizer.KeptLinesHaveNoHeaders | lib/email_cleaner.py:95-101 | no kept line starts with `from:`, `sent:`, `to:`, `subject:`, `cc:` or `bcc:` in any case, or carries a caution phrase |
| Sanitizer.MetadataOfOneLine | lib/email_cleaner.py:84-108 | a one-line body without underscores is kept and trimmed, or dropped whole |
| Sanitizer.StripQuoted | lib/email_cleaner.py:63-71 | `strip_quoted`: drop the quoted lines, rejoin with `\n`, cut at the first `On …wrote:` match, then at the first `\n\s*On\s+\w+,` match, and strip |
| Sanitizer.RemoveSentFromMy | lib/email_cleaner.py:80 | `re.sub(r'Sent from my .+', '', s)`: each match is removed up to the end of its line |
| Sanitizer.StripSignature | lib/email_cleaner.py:74-81 | `strip_signature`: cut before the first `--`, remove the `Sent from my` runs, strip |
| Sanitizer.RemoveSeparators | lib/email_cleaner.py:87 | `re.sub(r'_{20,}', '', s)`: runs of twenty or more underscores are removed |
| Sanitizer.MetadataStripped | lib/email_cleaner.py:84-108 | `strip_email_metadata` as a value: the kept lines of the separator-free text, joined with `\n` and stripped |
| Sanitizer.MetadataTrimExposesHeader | lib/email_cleaner.py:95-108 | `" From: x"` becomes `"From: x"`, which becomes `""`: the transform is not idempotent |
| Classifier.RemoveUrls | lib/email_cleaner.py:124 | `re.sub(r'https?://\S+', '', s)` never lengthens the text |
| Classifier.RemoveUrlsLeavesNoUrl | lib/email_cleaner.py:124 | no `https?://\S+` match is left after the removal: each removed URL is followed by whitespace or the end, so no new URL is assembled |
| Classifier.RemoveUrlsKeepsClean | lib/email_cleaner.py:124 | text without a URL is left as it is |
| Classifier.RemoveImageRefsKeepsClean | lib/email_cleaner.py:171 | text without an `[image:…]` reference is left as it is by `re.sub(r'\[image:.*?\]', '', body, flags=re.IGNORECASE)` |
| Classifier.ImageRemovalCanExposeRef | lib/email_cleaner.py:171 | the single pass can leave a reference behind: removing `[image:x]` from `[ima[image:x]ge:y]` leaves the reference `[image:y]` |
| Classifier.UrlOnlyByContext | lib/email_cleaner.py:115-128 | `is_url_only` holds exactly when "http" occurs and fewer than ten words remain once URLs are removed; the bare-URL test never decides alone |
| Classifier.BareUrlBody | lib/email_cleaner.py:119-124 | a body that strips to a bare URL leaves only whitespace once the URL is removed, and contains "http" |
| Classifier.IsSignatureOnly | lib/email_cleaner.py:148-154 | never true for ten or more words; true only with a phone number or an address |
| Classifier.HasFormDataIff | lib/email_cleaner.py:216-227 | `has_form_data` holds exactly when two distinct patterns of the five match |
| Classifier.FormMatchCountPairs | lib/email_cleaner.py:226 | the match count reaches one (two) exactly when one pattern (two distinct patterns) match |
| Classifier.MeaningfulIff | lib/email_cleaner.py:230-276 | `is_meaningful` is true exactly when no rejection test fires; a blank body and a bare "unsubscribe" are never kept |
| Classifier.MeaningfulLinkHasContext | lib/email_cleaner.py:124-128 | a kept body that mentions "http" has at least ten words besides its URLs |
| Classifier.Intent | lib/email_cleaner.py:279-296 | the instruction is always one of the five fixed strings |
| Classifier.IntentByLength | lib/email_cleaner.py:293-296 | when no subject rule applies, the instruction depends on the word count alone: at most four words gives the brief one |
| Classifier.IntentGenericIff | lib/email_cleaner.py:293-296 | a synthetic instruction is one of the generic prompts of lib/config.py:16-20 exactly when it is the fallback |
| Classifier.IsUrlOnly | lib/email_cleaner.py:115-128 | `is_url_only`: the stripped body is one URL, or fewer than ten words remain once URLs are removed and "http" occurs |
| Classifier.IsAutoGenerated | lib/email_cleaner.py:131-138 | `is_auto_generated`: one of the three phrases occurs in the lower-cased body |
| Classifier.IsTestMessage | lib/email_cleaner.py:141-145 | `is_test_message`: one of the three phrases occurs in the lower-cased `body + " " + subject` |
| Classifier.HasPhone | lib/email_cleaner.py:151 | `\d{3}[-.\s]?\d{3}[-.\s]?\d{4}` matches somewhere |
| Classifier.HasEmailAddress | lib/email_cleaner.py:152 | `\S+@\S+` matches somewhere |
| Classifier.RemoveImageRefs | lib/email_cleaner.py:171 | each `[image:` (any case) up to the nearest `]` on its line is removed in one left-to-right pass, and the text never gets longer |
| Classifier.HasOnlyImageRefs | lib/email_cleaner.py:168-173 | `has_only_image_refs`: an image tag or `image.png` in the lower-cased body, and fewer than five words once the references are removed |
| Classifier.HasEmailHeaders | lib/email_cleaner.py:203-213 | `has_email_headers`: one of the four header patterns at a line start (any case), the external-sender phrase, or the Outlook underscore line |
| Classifier.HasFormData | lib/email_cleaner.py:216-227 | `has_form_data`: at least two of the five form patterns match (any case) |
| Classifier.IsSymbolsOnly | lib/email_cleaner.py:238 | `re.fullmatch(r"[^\w\s]+", t)`: a non-empty text with no word or whitespace character |
| Classifier.IsMeaningful | lib/email_cleaner.py:230-276 | `is_meaningful`: the cascade of rejection tests in the source's order, true when none fires |
| Conversation.Classify | lib/email_cleaner.py:316-337 | a message is appended to `outbound` exactly when it is meaningful and sent by the user, and to `inbound` exactly when it is meaningful and not, with the stripped ids and the cleaned body |
| Conversation.ReadMessage | lib/email_cleaner.py:316-337 | one pass of the scan loop computes that disposition |
| Conversation.ClassifyAllAt | lib/email_cleaner.py:315 | the i-th disposition is that of the i-th message |
| Conversation.Scan | lib/email_cleaner.py:312-337 | the loop leaves `outbound` and `inbound` as the specification functions of the dispositions |
| Conversation.OutboundsExactly | lib/email_cleaner.py:329-335 | an entry is in `outbound` exactly when some message was sent with it |
| Conversation.InboundKeys | lib/email_cleaner.py:336-337 | a Message-ID is an `inbound` key exactly when a received message carries it |
| Conversation.InboundIsLast | lib/email_cleaner.py:337 | the body stored under a Message-ID is that of the last received message carrying it |
| Conversation.ScanKeepsOnlyMeaningful | lib/email_cleaner.py:325-337 | the outbound entries and inbound keys come exactly from messages that pass `is_meaningful` |
| Conversation.Deduplicate | lib/email_cleaner.py:340 | the dict comprehension yields the keys in insertion order and the table of last values |
| Conversation.FirstIdsMembers | lib/email_cleaner.py:340 | the keys are exactly the Message-IDs that occur |
| Conversation.FirstIdsDistinct | lib/email_cleaner.py:340 | no key is listed twice |
| Conversation.FirstIdsOrder | lib/email_cleaner.py:340 | keys are listed in the order of their first occurrence |
| Conversation.LatestIsLast | lib/email_cleaner.py:340 | the entry kept for a Message-ID is its last occurrence |
| Conversation.UniqueSpec | lib/email_cleaner.py:340 | the values are one per distinct Message-ID, in first-occurrence order, each the last entry with that Message-ID |
| Conversation.PairUp | lib/email_cleaner.py:342-361 | the pairing loop builds one example per deduplicated entry, in order |
| Conversation.ProcessMbox | lib/email_cleaner.py:312-363 | the builder returns the dataset of the specification |
| Conversation.DatasetOnePerMessageId | lib/email_cleaner.py:340-344 | one example per distinct outbound Message-ID: the ids are pairwise distinct, and an id has an example exactly when a sent message carries it |
| Conversation.DatasetPairing | lib/email_cleaner.py:344-361 | each example is a user then an assistant message; the assistant content is the last sent body for that id; the user content is the last received body with the In-Reply-To id when one exists, else the synthetic instruction |
| Conversation.SentAfter | lib/email_cleaner.py:340 | the kept entry for an id is sent at or after every sent message with that id |
| Conversation.CleanBody | lib/email_cleaner.py:321-323 | the three transforms in the order the builder applies them |
| Conversation.SentByUser | lib/email_cleaner.py:317-329 | the lower-cased user address occurs in the lower-cased sender |
| Conversation.Unique | lib/email_cleaner.py:340 | `{o["msgid"]: o for o in outbound}.values()`: for each key in first-insertion order, its last entry |
| Conversation.ExampleOf | lib/email_cleaner.py:344-361 | one example: the parent's body when In-Reply-To is non-empty and an `inbound` key, the synthetic instruction otherwise; the sent body answers it |
| Conversation.DatasetOf | lib/email_cleaner.py:340-363 | the examples of the deduplicated outbound entries, in order |
| Conversation.BuildDataset | lib/email_cleaner.py:312-363 | the dataset `process_mbox` returns for the records |
| PromptEnhancer.Client.Complete | lib/prompt_enhancer.py:43-46 | the remote call logs the request and returns the model's answer to it |
| PromptEnhancer.Truncate | lib/prompt_enhancer.py:29 | a body longer than 1000 characters becomes exactly its first 1000 characters, and shorter bodies are kept whole |
| PromptEnhancer.ParseLine | lib/prompt_enhancer.py:53-65 | one pass of the parsing loop, with the inner scan for the first letter |
| PromptEnhancer.ParsedLineCases | lib/prompt_enhancer.py:54-65 | blank lines give nothing; a line not led by a digit gives itself stripped; a digit-led line gives the stripped rest from its first letter, or nothing without a letter |
| PromptEnhancer.ParseResponse | lib/prompt_enhancer.py:49-67 | the parsing loop returns the prompts of the stripped reply split on `\n` |
| PromptEnhancer.ParsedLinesShape | lib/prompt_enhancer.py:52-67 | every parsed prompt is non-empty, trimmed and not led by a digit, and there are no more prompts than lines |
| PromptEnhancer.ParseNumberedReply | lib/prompt_enhancer.py:49-67 | a reply numbered "1. ", "2. ", … with one prompt per line parses back into exactly those prompts |
| PromptEnhancer.GenerateSpecificPromptsBatch | lib/prompt_enhancer.py:11-67 | an empty batch returns nothing and sends no request; otherwise one request with the truncated bodies, and the parsed reply |
| PromptEnhancer.FindGeneric | lib/prompt_enhancer.py:83-97 | the detection loop computes the generic indices and bodies |
| PromptEnhancer.GenericIndicesSpec | lib/prompt_enhancer.py:86-97 | the indices are exactly the positions of generic examples, increasing, and the bodies are their assistant contents |
| PromptEnhancer.ParseReply | lib/prompt_enhancer.py:49-67 | the prompts parsed from a reply: stripped, split on `\n`, each line parsed in order |
| PromptEnhancer.IsGeneric | lib/prompt_enhancer.py:86-97 | an example with messages whose first user content, lower-cased and stripped, is one of the generic prompts of lib/config.py:16-20 |
| PromptEnhancer.GenericIndices | lib/prompt_enhancer.py:83-97 | `generic_indices`: the positions of the generic examples, in order |
| PromptEnhancer.FetchPrompts | lib/prompt_enhancer.py:106-117 | the batch loop returns the concatenated prompts of the consecutive batches and sends exactly their requests |
| PromptEnhancer.BatchesSpec | lib/prompt_enhancer.py:107-110 | there are ceil(G/B) batches; they are consecutive slices that rebuild the bodies, each of 1 to B bodies, all but the last exactly B; one request per batch |
| PromptEnhancer.Batches | lib/prompt_enhancer.py:107-110 | `generic_bodies[i:i + B]` for `i` in `range(0, G, B)` |
| PromptEnhancer.Refined | lib/prompt_enhancer.py:106-117 | `refined_prompts` after the batch loop: the prompts of each batch, concatenated in batch order |
| PromptEnhancer.CallsAreRequests | lib/prompt_enhancer.py:107-144 | the call count returned equals the number of requests sent |
| PromptEnhancer.Padding | lib/prompt_enhancer.py:124-125 | `n` copies of "Write an email in your tone." |
| PromptEnhancer.Padded | lib/prompt_enhancer.py:120-125 | the fetched prompts come first, then only the pad prompt, up to the count; a longer list is kept as it is |
| PromptEnhancer.PadPrompts | lib/prompt_enhancer.py:120-125 | the padding loop computes that list |
| PromptEnhancer.Replaced | lib/prompt_enhancer.py:128-139 | the examples after the first `j` replacements of the `zip` loop: same length, each replaced example a user/assistant pair keeping its assistant content |
| PromptEnhancer.Enhanced | lib/prompt_enhancer.py:70-144 | `enhance_generic_prompts` as a value: the input unchanged without generic examples, else the replacements with the padded refined prompts |
| PromptEnhancer.ReplaceGeneric | lib/prompt_enhancer.py:128-139 | the replacement loop on a copy of the list computes the replaced examples |
| PromptEnhancer.EnhanceGenericPrompts | lib/prompt_enhancer.py:70-144 | the result and call count of the specification, and exactly the requests of the batches; the input list is not modified |
| PromptEnhancer.EnhancedKeeps | lib/prompt_enhancer.py:128-139 | the result has the input's length, and every non-generic example is returned as it is |
| PromptEnhancer.EnhancedReplaces | lib/prompt_enhancer.py:120-139 | the j-th generic example becomes the j-th refined prompt (the pad prompt when replies ran short) with its own assistant content; prompts beyond the G-th are not used |
| PromptEnhancer.NoGenericUnchanged | lib/prompt_enhancer.py:102-103 | with no generic example the input comes back unchanged, with 0 calls and no request |
| Splitting.Shuffle | prepare_data.py:86 | the in-place swap loop on the array yields the shuffle of the given draws (same code at ui/shared.py:139) |
| Splitting.ShuffleFromPermutes | prepare_data.py:86 | the shuffle only reorders: the result is a permutation of the input (same code at ui/shared.py:139) |
| Splitting.FirstDrawFillsLastSlot | prepare_data.py:86 | the last slot ends up holding the item the first draw picked, and later swaps leave it alone |
| Splitting.Shuffled | prepare_data.py:86 | `random.shuffle` of a copy, as CPython's swap loop driven by the given draws (same code at ui/shared.py:139) |
| Splitting.ValidationCount | prepare_data.py:90 | `int(total * ratio)` for the ratio `num/den`: the product truncated toward zero (same code at ui/shared.py:142) |
| Splitting.SliceEnd | prepare_data.py:92-93 | Python slice-end clamping, including negative bounds (same code at ui/shared.py:144-145) |
| Splitting.ValidationCountBounds | prepare_data.py:89-93 | for a ratio in [0, 1] the count is between 0 and the total, the slice takes exactly that many, and it is 0 exactly when `total * ratio < 1` (same code at ui/shared.py:141-145) |
| Splitting.ConfiguredRatio | lib/config.py:11 | with the ratio 0.1 the count is `total // 10`, so fewer than ten examples leave validation empty |
| Splitting.SplitDataset | prepare_data.py:71-95 | validation then training is the shuffled copy, hence a permutation of the input; the validation size is `int(total * ratio)` clamped; training has the rest; the input array is only read (same code at ui/shared.py:125-147) |
| Splitting.EstimateTokens | prepare_data.py:38 | `len // 4`: four times the estimate is at most the length and less than four more (same code at ui/shared.py:95) |
| Splitting.EstimateTotalTokens | prepare_data.py:52-56 | the nested loop sums the estimate over every message of every example (same code at ui/shared.py:109-112) |
| Splitting.TotalTokens | prepare_data.py:52-56 | the sum of `estimate_tokens` over every message content of every example (same code at ui/shared.py:109-112) |
| Splitting.TotalTokensAppend | prepare_data.py:52-56 | the total over a concatenation is the sum of the totals |
| Splitting.TotalTokensPermutation | prepare_data.py:52-56 | the total does not depend on the order of the examples |
| Splitting.SplitKeepsTokens | prepare_data.py:92-93 | training and validation together carry the same token total as the input (same code at ui/shared.py:144-145) |
| Splitting.PairTokens | prepare_data.py:55-56 | an example without messages counts nothing; a pair counts a quarter of each half, rounded down |

## Left out

- Mailbox reading, the MIME walk, charset decoding, HTML-to-text conversion and the final tag and blank-line cleanup of `extract_clean_text` (lib/email_cleaner.py:11-60, 310-320) are I/O or foreign library code. The builder takes records whose `text` is the extracted body.
- Header lookup is not modelled: a missing header is the empty string in the record.
- The three long pattern lists are not interpreted: confirmation, CSS/JS code and meeting invite (lib/email_cleaner.py:157-200). They are parameters (`PatternLists`) of the classifier.
- The structurally important patterns are hand-coded as predicates. These are the quote, reply-header, `--`, `Sent from my`, underscore, header-line, URL, phone, address, image-reference, header-leak and form-data patterns.
- `lower()`, `\w`, `isdigit()` and `isalpha()` are taken over ASCII only. So is `\d` in the phone pattern (lib/email_cleaner.py:151) and the form patterns (lib/email_cleaner.py:221-222): Python matches every Unicode decimal digit there. `re.IGNORECASE` (lib/email_cleaner.py:95, 171, 213, 226) is modelled by ASCII lower-casing, while Python folds Unicode case (for example `ſ` with `s`, the Kelvin sign with `k`). `isspace()`/`\s` and `splitlines()` use Python's full sets.
- Classifier.RemoveImageRefs: no promise that the result is free of image references, because a single pass can assemble a new one (Classifier.ImageRemovalCanExposeRef); Python's `re.sub` does the same.
- The remote chat call is the `Client` object's `answer` function of the batch (lib/prompt_enhancer.py:43-46). The instruction text around the bodies (lib/prompt_enhancer.py:26-41) is not modelled: a request is modelled as the list of truncated bodies.
- The call's failures and exceptions are not modelled.
- The progress messages printed under `verbose` are output only and are not modelled.
- `random.seed` and the Mersenne Twister are not modelled. `random.shuffle` is modelled as its swap loop, with its draws given as input (`ValidDraws`).
- Splitting.ValidationCount: the float ratio is the fraction `num/den` and the product is exact. The rounding of the float product `total * 0.1` is not modelled.
- The dollar amounts of `estimate_cost` are floats and are left out. So is `write_jsonl`, which is file I/O.
- A message without a "content" key is not modelled: every `Message` has a content.
- An example without "messages" is `Unstructured`.

Where the code and its comments or design notes differ, the model follows the code:
- `strip_signature` cuts at the first `--` anywhere in the body, not only at a standalone delimiter line (Sanitizer.DashDashInsideTextCuts).
- The `On …wrote:` split is case-sensitive.
- `strip_email_metadata` is not idempotent (Sanitizer.MetadataTrimExposesHeader). The header test runs before the final trim, so an indented header line survives once and is dropped on a second pass.
- A digit-led reply line with no letter yields no prompt (PromptEnhancer.ParsedLineCases). The refiner then pads with the generic prompt.
