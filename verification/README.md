# A verified model of project-context

`project-context` turns meeting transcripts, documents and e-mail into a ledger of decisions, commitments and risks,
and composes cited briefs from it. This project models its core in Dafny and proves what that core is for: citations
that select the text they quote, a walk that misses no file, identities that never collide, transitions that are always
legal, briefs that only cite what they may, and stores that keep exactly what is still referenced.

Code that computes a value is a function; code that works step by step is a method, proved against a function, about
which the lemmas then speak. Classes stand for the objects whose state changes: the database connection, the
observation and brief tables, the evidence store, the DOCX assembler. Every lemma carries `{:induction false}`: each
induction is written out in its body.

## How the modules fit together

| module | what it models |
|---|---|
| `Text`, `Selections`, `Blocks` | whitespace, stripping, joining; filters and permutations of sequences; text blocks and the two ways they can cover a document |
| `Splitting`, `Chunking` | splitting oversized blocks, and grouping blocks into overlapping chunks |
| `Citations` | when a chunk's text is the span it cites |
| `Layout`, `Parsers`, `PlainText` | the cursor arithmetic of the VTT, PDF and DOCX parsers, and the paragraphs and headings of plain text |
| `Email` | the quote boundary, the normalized message, and the chunks ingestion makes of it |
| `Ledger`, `Matching`, `Classification` | the transition table, match scoring and ranking, and the proposal for one observation |
| `Normalization`, `Fingerprint` | normalized statements, the observation key and the observations table |
| `DriveWalk` | the paged, resumable folder walk and its dry run |
| `Transactions`, `Migrations` | reentrant transactions, and the migration runner on top of them |
| `BriefPlan`, `BriefCitations`, `BriefRender`, `BriefLifecycle` | planning claims from an arbitrary reply, citing and rendering them, concurrent generators |
| `ContentStore`, `ProjectPurge` | content versions over the object store, project deletion, and runs of both |
| `GroundTruth` | the expected state of a benchmark item before a cutoff |

## Where the code differs from its description

Each of these is proved, most with the exact condition under which the described behaviour holds.

- `_create_patch` asserts that no update observation reaches it. One family of inputs does
  (`Classification.CrashesExactlyWhen`); "this replaces it" is enough (`Classification.StatementCrashes`).
- The brief service says that a model mistake never makes accepted state vanish. One valid claim of any kind, even a
  suggestion that cites nothing, keeps out every fact that no passing claim asks for
  (`BriefRender.FactReachesReaderExactlyWhen`, `BriefPlan.SuggestionHidesFacts`), and a section whose facts all lack
  evidence reads "No accepted items" (`BriefRender.NoItemsExactlyWhen`).
- The transition check says that only a create starts an item; a correction does too (`Ledger.FirstVersion`).
- Two cancellation and blocking phrases contain an apostrophe, which normalization removes from every statement
  (`Normalization.FindableIsNormal`, `Normalization.ApostrophePhrasesNeverFire`).
- The signature delimiter of RFC 3676 is not recognized before CR LF, so a signature of such a body stays visible
  (`Email.SignatureExactlyWhen`, `Email.CrLfSignatureIsKept`, `Email.BareSignatureIsCut`). A reply with no blank line before the quoted history
  loses its last paragraph (`Email.GmailChunksCarry`).
- A COMMIT that fails leaves the transaction open, and the next migration run then reports success
  (`Transactions.OutermostAllOrNothing`, `Migrations.FailedCommitLooksApplied`, `Migrations.SuccessIsCommittedExactlyWhen`).
- Storing bytes an artifact already has, with an outdated copy of its row, can leave the pointer on another version
  (`ContentStore.StaleRecordExactlyWhen`). Bytes first stored under another marker are fetched again on every sync
  (`ContentStore.FetchedOnEverySync`). A version key that is taken strands the object just written
  (`ContentStore.OrphanExactlyWhen`, `ProjectPurge.RepeatedMarkerStrandsObject`).
- Objects are deleted after a purge has committed; a store in between can lose its object
  (`ProjectPurge.StoreBetweenCommitAndDeletion`, `ProjectPurge.PurgeLosesObject`).
- A chunk joins its blocks with two newlines, so it equals the span it cites only where the document has two newlines
  too (`Citations.ChunkCitesExactlyWhen`). Parts of a split block (`Citations.SplitPartsAreNotCitedExactly`) and
  plain-text paragraphs with a wider gap (`PlainText.ThreeNewlinesAreNotCitedExactly`) are cited inexactly; up to
  whitespace the two always agree (`Citations.ChunksCiteInk`). DOCX offsets are exact only under a condition
  (`Parsers.DocxSliceLaw`).

## Model

| member | source | states |
|---|---|---|
| `Splitting.SplitOversizedBlock` | src/project_context/chunking.py:46-76 | the loop computes `Split`; the lemmas below say what that is |
| `Splitting.SplitIsFaithful` | src/project_context/chunking.py:46-76 | the parts are ordered, disjoint slices with only whitespace between them, each a proper part, and together they carry all of the block's text |
| `Splitting.SplitParts` | src/project_context/chunking.py:54-68 | every part is non-blank, at most the target long, and ends inside a word only if it is full and has no space after its first character |
| `Splitting.NormalizedTiles` | src/project_context/chunking.py:105-110 | splitting the oversized blocks of a tiled document leaves a tiling of the same document |
| `Splitting.NormalizedInk` | src/project_context/chunking.py:105-110 | splitting loses no non-blank character and keeps their order |
| `Chunking.ChunkBlocks` | src/project_context/chunking.py:92-153 | the whole loop, with its two rejections, computes `ChunkingOf` |
| `Chunking.FillChunk` | src/project_context/chunking.py:116-137 | a chunk takes blocks to the first that would exceed the target, and at least one |
| `Chunking.CarryOver` | src/project_context/chunking.py:143-151 | the carry is the run of trailing blocks that fits the overlap |
| `Chunking.WindowsCharacterized` | src/project_context/chunking.py:112-151 | the windows are the only sequence in which each chunk adds a block, stops at the first that would exceed the target or after one forced block, and carries over the longest trailing run within the overlap |
| `Chunking.WindowSizes` | src/project_context/chunking.py:112-151 | a chunk's blocks sum to at most target plus overlap, and exceed the target only for a carry plus one forced block |
| `Chunking.WindowsCover` | src/project_context/chunking.py:112-151 | the new blocks of all chunks are the normalized blocks, once each and in order |
| `Chunking.ChunkingLosesNoText` | src/project_context/chunking.py:92-153 | for every input, target and overlap, the new parts carry exactly the input's non-blank characters in order |
| `Chunking.RejectedExactlyWhen` | src/project_context/chunking.py:92-104 | which targets and overlap ratios are rejected, and with which error |
| `Citations.JoinedIsSpanExactlyWhen` | src/project_context/chunking.py:79-89 | ordered, non-blank blocks joined by two newlines are the document's own text if and only if the document separates them all by exactly two newlines |
| `Citations.ChunkCitesExactlyWhen` | src/project_context/chunking.py:79-153 | for every input that tiles a document, split or not, a chunk's text is exactly the span it cites if and only if its blocks lie exactly two newlines apart |
| `Citations.ChunksCiteExactly` | src/project_context/chunking.py:79-89 | so it always is over exact, two-newline-separated blocks within the target |
| `Citations.ChunksCiteInk` | src/project_context/chunking.py:79-153 | over any tiling each chunk's text and its cited span agree up to whitespace |
| `Citations.ChunkRecords` | src/project_context/chunking.py:79-89 | what a chunk records: its number, the ends and section of its blocks, the digest and token estimate of its own text |
| `Citations.SplitPartsAreNotCitedExactly` | src/project_context/chunking.py:46-89 | for every target and overlap, a text one character over the target is split at its last space and cited as a span that is not its chunk's text; at target 200, "short " and a word of 195 characters is one |
| `Blocks.TilesInk` | src/project_context/chunking.py:46-76 | ordered slices with only whitespace between them carry all of the text they cover |
| `Blocks.AlignedWindow` | src/project_context/chunking.py:79-89 | joining consecutive blocks with two newlines gives the document's own text |
| `Layout.SliceLaw` | src/project_context/parsers/docx_parser.py:59-97 | laid-out blocks are slices of the stripped text if and only if the first starts, and the last ends, with a non-blank character |
| `Parsers.MergeTurns` | src/project_context/parsers/vtt_parser.py:87-97 | the loop computes `Turns` |
| `Parsers.MarkupIsGone` | src/project_context/parsers/vtt_parser.py:28-49 | removing tags leaves none, and leaves a text alone if and only if it has none |
| `Parsers.OnlyTagsRemoved` | src/project_context/parsers/vtt_parser.py:28-49 | told from the characters: exactly those between an opening bracket and the first closing one after it are removed |
| `Parsers.TurnsAreMaximalRuns` | src/project_context/parsers/vtt_parser.py:87-97 | turns are exactly the maximal runs of consecutive spoken cues by one speaker; no cue is lost or reordered |
| `Parsers.SpokenAreCaptions` | src/project_context/parsers/vtt_parser.py:87-97 | the spoken cues are, in order, the captions with something left beside markup, with their times and speakers |
| `Parsers.TurnKeepsText` | src/project_context/parsers/vtt_parser.py:99-107 | a turn reads its speaker, a colon and the text of all its cues |
| `Parsers.TranscriptLosesNoText` | src/project_context/parsers/vtt_parser.py:99-122 | the blocks carry every turn, speakers included |
| `Parsers.TurnsAreLabelled` | src/project_context/parsers/vtt_parser.py:108-118 | a block names its turn by number, speaker and times |
| `Parsers.ParseVtt` | src/project_context/parsers/vtt_parser.py:52-138 | the method computes `VttResult`, with its failures |
| `Parsers.VttRefusedExactlyWhen` | src/project_context/parsers/vtt_parser.py:52-130 | when a transcript fails and when it is empty |
| `Parsers.VttOffsetsExact` | src/project_context/parsers/vtt_parser.py:100-130 | every turn is a non-blank slice of the stored text that its offsets name, two newlines apart |
| `Parsers.ParsePdf` | src/project_context/parsers/pdf_parser.py:28-95 | the method computes `PdfResult`, with its failures |
| `Parsers.PdfOffsetsExact` | src/project_context/parsers/pdf_parser.py:40-88 | a file is parsed exactly when some page is dense; then all blocks are non-blank and all offsets exact |
| `Parsers.PdfLosesNoText` | src/project_context/parsers/pdf_parser.py:66-88 | the blocks carry the non-blank text of all pages |
| `Parsers.PdfRefusedExactlyWhen` | src/project_context/parsers/pdf_parser.py:28-64 | when a PDF fails and when it is taken for a scan |
| `Parsers.PagesAreLabelled` | src/project_context/parsers/pdf_parser.py:66-88 | the blocks are the pages with text, each stripped and under its own number in the file |
| `Parsers.DocxAssembler.AppendBlock` | src/project_context/parsers/docx_parser.py:65-76 | each call keeps text, cursor and blocks laid out, and drops blank items only |
| `Parsers.DocxAssembler.AppendBody` | src/project_context/parsers/docx_parser.py:78-89 | the nested loops over paragraphs and table cells, with their ordinals, append the texts of the body in reading order |
| `Parsers.BodyReadsOn` | src/project_context/parsers/docx_parser.py:78-89 | each further item appends its own texts; paragraphs and list items share one numbering and tables have another |
| `Parsers.TablesReadByRow` | src/project_context/parsers/docx_parser.py:84-89 | every cell of a table stands after all earlier rows and cells, with its table, row and column |
| `Parsers.ParseDocx` | src/project_context/parsers/docx_parser.py:47-104 | the method computes `DocxResult` of the body's texts, with its failures |
| `Parsers.DocxRefusedExactlyWhen` | src/project_context/parsers/docx_parser.py:47-97 | when a DOCX file fails and when it is empty |
| `Parsers.DocxSliceLaw` | src/project_context/parsers/docx_parser.py:59-97 | DOCX offsets are exact if and only if the first kept item starts, and the last ends, with a non-blank character |
| `Parsers.DocxOffsetsBeforeStripping` | src/project_context/parsers/docx_parser.py:65-97 | DOCX offsets always name slices of the text before it was stripped |
| `Parsers.DocxCitations` | src/project_context/parsers/docx_parser.py:59-104 | a DOCX chunk is exactly the span it cites in that text if and only if its blocks lie two newlines apart, and that text is the stored one if and only if its ends are not blank |
| `Parsers.ExactDocumentCitations` | src/project_context/chunking.py:79-153 | a chunk of a parsed transcript or PDF always cites its own ink, and its own text if and only if its blocks lie two newlines apart, as unsplit ones do |
| `PlainText.ParsePlainText` | src/project_context/parsers/txt_parser.py:48-103 | the paragraph scan and the loop over headings compute `PlainTextResult` |
| `PlainText.PlainTextRefusedExactlyWhen` | src/project_context/parsers/txt_parser.py:61-72 | only a blank text is refused, and the paragraphs of any other keep all of its text |
| `PlainText.BreaksAtBlankLines` | src/project_context/parsers/txt_parser.py:30-58 | a paragraph ends at a place exactly when a blank line starts there, and the next one starts after its newlines |
| `PlainText.HeadingExactlyWhen` | src/project_context/parsers/txt_parser.py:26-28 | a stripped paragraph is a heading exactly when it is one line of one to six marks and whitespace; its text is what follows |
| `PlainText.SectionsFollowHeadings` | src/project_context/parsers/txt_parser.py:74-95 | each Markdown paragraph names its own heading, or the nearest one above, or none when there is none above |
| `PlainText.PlainTextCitations` | src/project_context/parsers/txt_parser.py:48-103 | paragraphs tile the text, so every chunk and the span it cites agree up to whitespace, and exactly if and only if two newlines separate the chunk's blocks |
| `PlainText.ThreeNewlinesAreNotCitedExactly` | src/project_context/parsers/txt_parser.py:30-58 | two unsplit paragraphs three newlines apart are cited as a span one newline longer than their chunk |
| `Email.FindQuoteBoundary` | src/project_context/domain/email_normalization.py:256-284 | the loop with its quote-run counters computes the boundary |
| `Email.BoundaryIsFirst` | src/project_context/domain/email_normalization.py:250-284 | the boundary is the first line that is a marker or a signature, or starts two quoted lines; none starts earlier |
| `Email.KeptWholeExactlyWhen` | src/project_context/domain/email_normalization.py:256-284 | a body is kept whole exactly when it has no marker line and no two consecutive lines are quoted |
| `Email.QuotedExactlyWhen` | src/project_context/domain/email_normalization.py:251-253 | a line is quoted exactly when its first non-blank character is the quote mark |
| `Email.TrimmingIsIdempotent` | src/project_context/domain/email_normalization.py:256-284 | a trimmed body has nothing left to trim |
| `Email.SignatureExactlyWhen` | src/project_context/domain/email_normalization.py:250-284 | for every line of every body: two dashes are a signature before any line end, the delimiter of section 4.3 of RFC 3676 only before a bare newline or the end of the body |
| `Email.CrLfSignatureIsKept` | src/project_context/domain/email_normalization.py:256-284 | a body of CR LF lines that is a delimiter and a name has its boundary at its very end |
| `Email.HeadersAreStated` | src/project_context/domain/email_normalization.py:209-241 | the header block a stored message starts with, field by field |
| `Email.BodyOffsetRecovered` | src/project_context/domain/email_normalization.py:209-241 | ingestion finds the exact body offset if and only if no header value holds a blank line or ends in a newline |
| `Email.GmailChunksStayVisible` | src/project_context/services/gmail_ingestion.py:55-65 | no chunk of a message reaches past the visible end |
| `Email.VisibleEndIsBoundary` | src/project_context/services/gmail_ingestion.py:131-147 | whatever the headers hold, that end is never past the body's own quote boundary, and it is that boundary if and only if no line searched before the body starts quoted history |
| `Email.ChunksStayBeforeQuotes` | src/project_context/services/gmail_ingestion.py:55-65 | so no chunk of any message reaches the quoted history of its body |
| `Email.GmailChunksCarry` | src/project_context/services/gmail_ingestion.py:55-65 | the chunks carry exactly the text before the first paragraph that ends after the visible end, and all visible text if and only if that paragraph has none |
| `Ledger.HistoryStaysValid` | src/project_context/domain/ledger.py:90-273 | every accepted history keeps the status valid for its kind, and leaves a terminal one only by reopen or correct |
| `Ledger.UncorrectedHistories` | src/project_context/domain/ledger.py:157-273 | without reopen and correct, the accepted histories are exactly: created, updated while open, closed at most once |
| `Ledger.ReachableIsValid` | src/project_context/domain/ledger.py:90-155 | the statuses reachable without corrections are exactly those the table allows |
| `Ledger.FirstVersion` | src/project_context/domain/ledger.py:161-273 | a first version is a create with the initial status or a correction to any valid one |
| `Ledger.VerdictExactlyWhen` | src/project_context/domain/ledger.py:90-275 | which steps are legal, and which of its two errors the check raises, told from kind, statuses and transition |
| `Matching.ComputeMatchFeatures` | src/project_context/domain/reconciliation.py:262-344 | the branches that overwrite local features compute each feature's own definition |
| `Matching.FeatureValues` | src/project_context/domain/reconciliation.py:262-344 | what each feature of a pair is, told from the two |
| `Matching.DefaultScoreIs` | src/project_context/domain/reconciliation.py:61-94 | the default score in hundredths of each feature |
| `Matching.EachFeatureHasItsWeight` | src/project_context/domain/reconciliation.py:243-259 | changing one feature moves the raw score by its own weight, up for rewards and down for penalties |
| `Matching.JaccardRange` | src/project_context/domain/text_normalization.py:162-176 | similarity is within 0 and 1, 1 exactly for equal non-empty sets, 0 exactly when nothing is shared |
| `Matching.ScoreMonotone` | src/project_context/domain/reconciliation.py:243-259 | for any non-negative weights the score is monotone in every reward and antitone in every penalty |
| `Matching.DefaultScoreBounds` | src/project_context/domain/reconciliation.py:61-94 | with the default weights the raw score is at most 1, any penalty keeps it at 0.80, a conflicting owner at 0.55 |
| `Matching.DefaultBoundsAreTight` | src/project_context/domain/reconciliation.py:61-94 | a perfect match reaches 1, and 0.55 when only its owner differs |
| `Matching.RankSorts` | src/project_context/domain/reconciliation.py:387-411 | ranking sorts by descending score and permutes |
| `Matching.RankIsStable` | src/project_context/domain/reconciliation.py:387-411 | equally scored candidates keep their order |
| `Matching.OutcomeOrderIndependent` | src/project_context/domain/reconciliation.py:387-411 | the candidates' order changes neither tier nor margin, and the top only at an exact tie |
| `Matching.TierExactlyWhen` | src/project_context/domain/reconciliation.py:387-411 | the margin is the lead over the best of the others, and the tier follows from the best score and that lead |
| `Classification.ClassifyAction` | src/project_context/domain/reconciliation.py:475-850 | the decision tree with its early returns computes `Classified`; the lemmas below say when each action is chosen |
| `Classification.CompletesExactlyWhen` | src/project_context/domain/reconciliation.py:586-689 | when a completion is proposed, and its patch: a clear match with a live item meets completion language and no change of kind |
| `Classification.CancelsExactlyWhen` | src/project_context/domain/reconciliation.py:586-708 | when a cancellation is proposed, and its patch: the same with cancellation and without completion language |
| `Classification.SupersedesExactlyWhen` | src/project_context/domain/reconciliation.py:586-734 | when a supersession is proposed, of another kind or of the same |
| `Classification.DateChangesExactlyWhen` | src/project_context/domain/reconciliation.py:586-769 | when a new due date is proposed: only the date differs and date-change language is found; the values are the observation's |
| `Classification.OwnerChangesExactlyWhen` | src/project_context/domain/reconciliation.py:586-802 | when a new owner is proposed: only the owner differs and assignment language is found; it is the observation's |
| `Classification.RepeatsExactlyWhen` | src/project_context/domain/reconciliation.py:637-668 | when an observation repeats its match, and that only existing evidence tells the two answers apart |
| `Classification.CreatesExactlyWhen` | src/project_context/domain/reconciliation.pydomain/reconciliation.py:507-830 | when a new item is proposed, with no match or with an uncertain one |
| `Classification.NewItemsCarry` | src/project_context/domain/reconciliation.py:434-456 | what a new item carries is what the observation says |
| `Classification.EscalatesExactlyWhen` | src/project_context/domain/reconciliation.py:502-840 | each escalation is given exactly when it applies, told from observation, match and item |
| `Classification.FlagsExactlyWhen` | src/project_context/domain/reconciliation.py:475-850 | when a proposal rests on explicit language, and when it can be invalid in the ledger |
| `Classification.CrashesExactlyWhen` | src/project_context/domain/reconciliation.py:434-456 | the assertion fails on exactly one family of inputs |
| `Classification.UpdateSupersessionCrashes` | src/project_context/domain/reconciliation.py:711-734 | any live, supersedable candidate reaches that family |
| `Classification.StatementCrashes` | src/project_context/domain/reconciliation_language.py:36-236 | so does the update "this replaces it", with the signals the phrase search finds in it |
| `Classification.ProposedTransitionsAreLegal` | src/project_context/domain/reconciliation.py:586-802 | updates, cancellations and supersessions are always legal ledger transitions from a live item, completions exactly for commitments and milestones |
| `Classification.TargetIsTopMatch` | src/project_context/domain/reconciliation.py:475-850 | which proposals have a target, and that it is the top match |
| `Classification.SupersessionsLinkBack` | src/project_context/domain/reconciliation.py:711-734 | a supersession names the item it closes and takes the observation's kind |
| `Classification.TierAndPenalties` | src/project_context/domain/reconciliation.py:387-411 | a strong match has no penalty; a conflicting owner is always uncertain; a corrected-field penalty implies a date or owner conflict |
| `Classification.ReassignmentsAreWeak` | src/project_context/domain/reconciliation.py:772-789 | every proposed owner reassignment is escalated as a weak match |
| `Classification.UnescalatedExactlyWhen` | src/project_context/domain/reconciliation.py:502-573 | nothing is escalated exactly for a create without candidates or a strong repetition, with an unambiguous owner |
| `Classification.ReconcileOrderIndependent` | src/project_context/domain/reconciliation.py:550-566 | from the review threshold on, or without a tie, the answer does not depend on the candidates' order |
| `Classification.TiesBelowReviewDependOnOrder` | src/project_context/domain/reconciliation.py:550-566 | below it an exact tie does depend on the order |
| `Classification.BandFollowsEscalation` | src/project_context/domain/reconciliation.py:904-968 | an unescalated proposal has the band of its extraction, as the observation's text gives it; conflicts, reassignments and illegal transitions are low |
| `Classification.BandExactlyWhen` | src/project_context/domain/reconciliation.py:894-968 | when the overall band is high and when it is low, told from the evidence for extraction, match and mutation |
| `Normalization.NormalizeIsRetraction` | src/project_context/domain/text_normalization.py:39-55 | the normal forms are exactly the texts normalization keeps, and it always yields one |
| `Normalization.NormalizedInk` | src/project_context/domain/text_normalization.py:39-55 | a normalized statement has exactly the characters of the statement that are neither whitespace nor punctuation, in order |
| `Normalization.NormalizeJoinsWords` | src/project_context/domain/text_normalization.py:39-55 | it is the statement's words with one space between each two; words are what whitespace separates, without punctuation |
| `Normalization.NormalizedAlike` | src/project_context/domain/text_normalization.py:39-55 | two statements normalize alike if and only if they have the same words |
| `Normalization.FindableIsNormal` | src/project_context/domain/text_normalization.py:34-55 | a phrase can be found in some normalized statement if and only if it is in normal form |
| `Normalization.Search` | src/project_context/domain/reconciliation_language.py:36-40 | finds the first listed phrase that occurs in the statement, if any does |
| `Normalization.ApostrophePhrasesNeverFire` | src/project_context/domain/reconciliation_language.py:119-236 | two listed phrases are not, so they never fire |
| `Fingerprint.KeyDecodes` | src/project_context/domain/observations.py:66-83 | the pre-hash string can be read back to its parts, whatever the statement contains |
| `Fingerprint.FingerprintIdentifies` | src/project_context/domain/observations.py:66-83 | two fingerprints are equal if and only if content, kind, the words of the statements and the multiset of spans are |
| `Fingerprint.SeparatorInKindCollides` | src/project_context/domain/observations.py:66-83 | without clean kinds two different propositions share a fingerprint |
| `Fingerprint.ObservationTable.InsertObservation` | src/project_context/db/observation_repository.py:75-147 | inserts only when no row has the fingerprint, and returns the row that has it |
| `Fingerprint.OneRowPerProposition` | src/project_context/db/observation_repository.py:106-147 | after any insertions each distinct proposition has exactly one row |
| `Fingerprint.ReplayChangesNothing` | src/project_context/db/observation_repository.py:106-147 | replaying represented propositions, in any order and number, changes nothing |
| `DriveWalk.PartitionChildren` | src/project_context/connectors/drive.py:287-300 | the loop computes `Artifacts` and `Subfolders`; the two lemmas below say what they are |
| `DriveWalk.FoundExactlyWhen` | src/project_context/connectors/drive.py:75-88 | an artifact is found on a page if and only if it carries a child there that is a Google Doc or not of one of Google's own types: its id, its name or else its id, its type and its modification time |
| `DriveWalk.QueuedExactlyWhen` | src/project_context/connectors/drive.py:287-300 | a folder is queued from a page if and only if a child there has its id and the folder type |
| `DriveWalk.Preview` | src/project_context/connectors/drive.py:145-168 | the dry run returns the first `limit` files of the full enumeration |
| `DriveWalk.DiscoverTakesOnePage` | src/project_context/connectors/drive.py:170-200 | one call lists the next page of the enumeration and hands over exactly the rest |
| `DriveWalk.WalkResumes` | src/project_context/connectors/drive.py:170-200 | resuming from any checkpoint continues the same enumeration, and the walk ends after as many calls as pages |
| `DriveWalk.ListsExactlyReachable` | src/project_context/connectors/drive.py:170-200 | a page is listed exactly when its folder is reachable from the root |
| `DriveWalk.WalkListsOnce` | src/project_context/connectors/drive.py:170-200 | in a tree with single parents every reachable page is listed exactly once |
| `DriveWalk.WalkEnds` | src/project_context/connectors/drive.py:170-200 | called from no checkpoint and then with each answer's checkpoint, the walk ends after exactly as many calls as pages, with all their files |
| `DriveWalk.WalkYieldsEachFileOnce` | src/project_context/connectors/drive.py:170-200 | that walk yields the artifact of any such child that sits on one page, once if its folder is reachable and else never |
| `DriveWalk.WalkYieldsOnlyFiles` | src/project_context/connectors/drive.py:170-200 | and every artifact it yields carries such a child of a reachable folder |
| `DriveWalk.FoldersWaitTheirTurn` | src/project_context/connectors/drive.py:170-200 | folders are listed first in, first out: none that waits is dropped or overtaken |
| `DriveWalk.SubfolderExactlyWhen` | src/project_context/connectors/drive.py:287-300 | told from the raw children, which folders another leads to |
| `Transactions.Connection.Transaction` | src/project_context/db/connection.py:116-168 | the reentrant block, with its BEGIN, COMMIT, rollback and error translation, does what `Exec` says |
| `Transactions.Connection.Run` | src/project_context/db/connection.py:116-168 | any program of nested blocks leaves the connection as `Exec` says |
| `Transactions.InsideIsFlat` | src/project_context/db/connection.py:137-168 | inside a transaction nested blocks have no effect of their own |
| `Transactions.OutermostAllOrNothing` | src/project_context/db/connection.py:115-168 | the outermost block commits every write or restores the store, but for a COMMIT that fails |
| `Transactions.RawBusyEscapesExactlyWhen` | src/project_context/db/connection.py:38-68 | a raw lock error leaves a block if and only if the block opened the transaction, its body went through and its COMMIT met the lock |
| `Transactions.ErrorsAreRaised` | src/project_context/db/connection.py:38-68 | an error that leaves a program was raised in it, or stands for a lock error that was |
| `Transactions.SwallowedBlockIsHalfCommitted` | src/project_context/db/connection.py:123-135 | an error swallowed inside commits the part of the inner block that ran |
| `Migrations.ApplyMigration` | src/project_context/db/migrations.py:109-121 | one file runs as one block, or is rejected before it |
| `Migrations.RunMigrations` | src/project_context/db/migrations.py:124-145 | the loop applies pending files up to the first failure; over files in version order the applied ones ascend and skip no unrecorded one, and a run that succeeds leaves none unapplied |
| `Migrations.MigrationAllOrNothing` | src/project_context/db/migrations.py:109-121 | a migration takes effect completely or not at all; only a failing COMMIT leaves the connection inside the transaction |
| `Migrations.RunCommitsLanding` | src/project_context/db/migrations.py:124-145 | a run commits exactly the longest prefix of pending migrations that all land, and leaves the connection idle unless the next fails at its COMMIT |
| `Migrations.RunsApplyOnce` | src/project_context/db/migrations.py:109-145 | over any failing and succeeding runs the store holds each recorded migration's effect exactly once and nothing else, and the connection is idle exactly when no run failed at a COMMIT |
| `Migrations.RunsKeepFileOrder` | src/project_context/db/migrations.py:124-145 | over any runs, each adds the effects of its new files in version order and skips no unrecorded earlier one |
| `Migrations.NewDatabaseHoldsAll` | src/project_context/db/migrations.py:124-145 | a run on a new database in which every file lands commits exactly the effects of all files, in their order |
| `Migrations.UpToDateRunIsNoOp` | src/project_context/db/migrations.py:124-145 | a run on an up-to-date store changes nothing |
| `Migrations.FailedCommitLooksApplied` | src/project_context/db/migrations.py:109-121 | after a COMMIT that fails the next run reports success while nothing was committed |
| `Migrations.SuccessIsCommittedExactlyWhen` | src/project_context/db/migrations.py:124-145 | a run that reports success has committed all its files if and only if the connection was idle at the start or they were committed before |
| `BriefPlan.PlanModelEligibleSections` | src/project_context/services/briefs.py:154-215 | the loops over an arbitrary reply compute the plan section by section, in the fixed order |
| `BriefPlan.GroupByHeading` | src/project_context/services/briefs.py:160-165 | the dictionary holds, per eligible heading, all claims under it in order |
| `BriefPlan.ReturnedExactlyWhen` | src/project_context/services/briefs.py:160-165 | a claim is made under a heading exactly when some section of the reply with that heading makes it |
| `BriefPlan.ClassifiedExactlyWhen` | src/project_context/services/brief_shared.py:42-69 | which citations resolve, and exactly when a claim is valid, unsupported or an invalid reference |
| `BriefPlan.ResolvedInOrder` | src/project_context/services/brief_shared.py:42-69 | resolved citations keep the order and repetitions of the request |
| `BriefPlan.LookupIsLast` | src/project_context/services/briefs.py:157-159 | an id names the last fact of the payload that has it |
| `BriefPlan.StoredCitations` | src/project_context/services/brief_shared.py:72-102 | what is stored of a claim: its resolved citations and the ledger item of the first, or its raw request |
| `BriefPlan.ModelClaimValidExactlyWhen` | src/project_context/services/brief_shared.py:42-69 | a model claim is valid exactly when it is a suggestion or asks for a fact of its section with evidence |
| `BriefPlan.ValidClaimsAreGrounded` | src/project_context/services/briefs.py:154-215 | whatever the reply, a valid fact or inference in a section with facts cites only that section's facts, one with evidence; an empty section has its placeholder only |
| `BriefPlan.SectionsInOrder` | src/project_context/services/briefs.py:167-215 | claims come in the fixed order of the sections |
| `BriefPlan.OpensWithObjectiveAndStage` | src/project_context/services/briefs.py:109-151 | every brief opens with two facts that are always shown, the objective and the current stage |
| `BriefPlan.EmptySectionSaysSo` | src/project_context/services/briefs.py:170-181 | a section without facts says one thing, whatever the reply |
| `BriefPlan.FactShownExactlyWhen` | src/project_context/services/briefs.py:182-214 | read off the reply: a section shows a fact exactly when some claim that passes asks for it, or no claim passes and the fact has evidence |
| `BriefPlan.FallbackValidExactlyWhen` | src/project_context/services/briefs.py:196-214 | the claim written without the model is valid exactly when its fact has evidence |
| `BriefPlan.FallbackMentions` | src/project_context/services/brief_shared.py:105-123 | its text mentions the title and everything stated of the fact: status and owner, and the due date or the transition |
| `BriefPlan.SuggestionHidesFacts` | src/project_context/services/briefs.py:192 | a single suggestion keeps every fact of its section out |
| `BriefPlan.ReorderingChangesNothing` | src/project_context/services/briefs.py:160-165 | reordering reply sections with distinct headings changes nothing |
| `BriefPlan.IneligibleIgnored` | src/project_context/services/briefs.py:161-164 | a reply section under another heading is ignored wherever it stands |
| `BriefRender.LinkClaimEvidence` | src/project_context/services/brief_shared.py:126-157 | the loops with their `seen` set store one copy per distinct existing link, in order of first occurrence |
| `BriefRender.LinksOnce` | src/project_context/services/brief_shared.py:133-145 | every existing link of the cited facts is copied exactly once, and nothing else |
| `BriefRender.LinkedExactlyWhen` | src/project_context/services/brief_shared.py:126-157 | a link is copied exactly when it exists and a cited fact has it as evidence |
| `BriefRender.FirstLinksInOrder` | src/project_context/services/brief_shared.py:133-145 | the copies come in the order in which the links are first cited |
| `BriefRender.ShownFactsAreCited` | src/project_context/services/briefs.py:319-340 | a shown fact or inference in a section with facts has at least one citation |
| `BriefCitations.CitationMarkdown` | src/project_context/services/brief_shared.py:160-190 | the loop over a claim's links computes its numbered markers |
| `BriefCitations.MarkersAreNumbered` | src/project_context/services/brief_shared.py:160-190 | one marker per link, numbered from 1, each with its own span's address and its artifact's source |
| `BriefCitations.ViewUrlIdentifies` | src/project_context/services/brief_shared.py:160-190 | over artifact ids without an ampersand, two citations open the same address if and only if they name the same artifact and the same span |
| `BriefCitations.ViewUrlReadsBack` | src/project_context/services/brief_shared.py:160-190 | the address can be read back to the artifact and the two ends of the span |
| `BriefRender.RenderMarkdown` | src/project_context/services/briefs.py:218-242 | the Markdown is the title and, per heading, its line and one line for each shown claim, with prefix, text and markers, or the one for no items |
| `BriefRender.ShowsInPlanOrder` | src/project_context/services/briefs.py:229-241 | a section's bullets are its valid claims in planned order |
| `BriefRender.ShowsValidInOrder` | src/project_context/services/briefs.py:222-226 | a section's lines are exactly its valid claims, each once, by ascending ordinal |
| `BriefRender.HeadingsFollowPlan` | src/project_context/services/briefs.py:218-242 | the sections of the Markdown come in the order in which they are planned |
| `BriefRender.NoItemsExactlyWhen` | src/project_context/services/briefs.py:229-231 | exactly when a section reads "No accepted items" |
| `BriefRender.FactReachesReaderExactlyWhen` | src/project_context/services/briefs.py:154-242 | in the rendering of a whole plan: a bullet cites a fact exactly when a claim of the reply passes and asks for it, or none passes and the fact has evidence |
| `BriefRender.FactIsInMarkdownExactlyWhen` | src/project_context/services/briefs.py:154-242 | the same of the lines under the heading: one of them is a claim that cites the fact exactly then |
| `BriefLifecycle.BriefTable.SupersedePreviousValidBriefs` | src/project_context/db/brief_repository.py:179-200 | the update of every other valid brief of the project and type, and the number of rows |
| `BriefLifecycle.BriefTable.RunSchedule` | src/project_context/services/briefs.py:265-369 | any interleaving of generators' transactions leaves the table `Run` says |
| `BriefLifecycle.TableIsDetermined` | src/project_context/services/briefs.py:265-369 | under any interleaving every row is exactly what the schedule implies |
| `BriefLifecycle.CurrentIsLatestSuccess` | src/project_context/services/briefs.py:342-369 | in every committed state the valid brief of a project and type is the most recent success, and there is no other |
| `BriefLifecycle.SettledBriefsStay` | src/project_context/db/brief_repository.py:130-200 | failed and superseded briefs never change again |
| `BriefLifecycle.FinishesFromGenerating` | src/project_context/db/brief_repository.py:146-151 | a finalization always finds its brief generating |
| `ContentStore.EvidenceDb.StoreRawArtifact` | src/project_context/services/drive_ingestion.py:90-171 | object write, reuse by digest, version key and pointer move, as `AfterStore` says |
| `ContentStore.StoreMovesPointer` | src/project_context/services/drive_ingestion.py:122-160 | with a fresh record a successful store leaves the pointer on the bytes just stored and moves no other |
| `ContentStore.StaleRecordExactlyWhen` | src/project_context/services/drive_ingestion.py:124-130 | with any record, exactly when a repeated store leaves the pointer on its bytes |
| `ContentStore.StaleRecordKeepsOldVersion` | src/project_context/services/drive_ingestion.py:124-130 | storing A, B, A with the record read after the first store leaves the pointer on B |
| `ContentStore.StoreKeepsSound` | src/project_context/services/drive_ingestion.py:122-160 | every store keeps digests and version keys distinct per artifact, pointers within it, and referenced objects on disk |
| `ContentStore.OrphanExactlyWhen` | src/project_context/services/drive_ingestion.py:122-159 | before the call: a store leaves no object without a row if and only if the bytes are on disk already or the version key is free |
| `ContentStore.UnmarkedStoresNumber` | src/project_context/services/drive_ingestion.py:136-145 | without markers a version key is never taken, and unknown bytes are stored under the next number |
| `ContentStore.KnownBytesUnchangedExactlyWhen` | src/project_context/services/drive_ingestion.py:77-130 | after storing bytes the artifact has, it counts as unchanged exactly when their row carries the marker, and storing them again changes nothing |
| `ContentStore.FetchedOnEverySync` | src/project_context/services/drive_ingestion.py:77-130 | bytes first stored under another marker are fetched on every one of any number of syncs |
| `ContentStore.TouchedFileIsRefetched` | src/project_context/services/drive_ingestion.py:77-130 | a file whose marker changed once and whose bytes did not is such a case |
| `ProjectPurge.ProjectDb.DeleteProjectRows` | src/project_context/db/project_deletion_repository.py:205-221 | the deletions in their order compute `RowsPurged` |
| `ProjectPurge.ProjectDb.DeleteProject` | src/project_context/services/project_deletion.py:72-113 | refuses an unknown project or a wrong confirmation without touching anything, else purges rows and objects and reports their numbers |
| `ProjectPurge.PurgeLeavesOthers` | src/project_context/db/project_deletion_repository.py:183-221 | in every table a purge removes the project's rows and leaves every other row as it was |
| `ProjectPurge.PurgeRemovesWhatItCounts` | src/project_context/db/project_deletion_repository.py:75-156 | the rows removed are exactly the previewed total and the project row |
| `ProjectPurge.PurgeKeepsObjects` | src/project_context/db/project_deletion_repository.py:159-180 | a purge deletes exactly the objects that lose their last row: it strands none and loses none |
| `ProjectPurge.PurgeKeepsPointers` | src/project_context/db/project_deletion_repository.py:159-221 | other projects' artifacts keep naming the same bytes |
| `ProjectPurge.StoreBetweenCommitAndDeletion` | src/project_context/services/project_deletion.py:98-113 | before the call: a store between commit and deletion keeps its object if and only if its bytes were not the purged project's alone, or its version key was taken |
| `ProjectPurge.PurgeLosesObject` | src/project_context/services/project_deletion.py:98-113 | a purge of one project while another stores its copy of the same file: that artifact then stands for bytes that are gone |
| `ProjectPurge.RunsAreSound` | src/project_context/services/drive_ingestion.py:122-160 | after any run of stores and purges the indexes, pointers and referenced objects hold, and the unreferenced objects are exactly those that stores under a taken version key stranded |
| `ProjectPurge.ObjectsAreReferenced` | src/project_context/evidence_store.py:78-125 | the objects on disk are exactly the referenced digests if and only if nothing was stranded, as when no store of unknown bytes meets a taken key |
| `ProjectPurge.RepeatedMarkerStrandsObject` | src/project_context/services/drive_ingestion.py:122-159 | a run of three events that strands an object: two versions of a file under one marker |
| `ProjectPurge.PointerNamesLastStored` | src/project_context/services/drive_ingestion.py:122-160 | after any run an artifact's pointer names the bytes last stored for it |
| `GroundTruth.VisibleChanges` | src/project_context/evaluation/ground_truth_state.py:53-68 | dating, filtering and sorting compute `Visible` |
| `GroundTruth.StateAtCutoff` | src/project_context/evaluation/ground_truth_state.py:71-126 | the fold and the supersession override give the state `IsStateAt` describes |
| `GroundTruth.IsSupersededByCutoff` | src/project_context/evaluation/ground_truth_state.py:129-143 | true exactly when another item's visible change supersedes this one |
| `GroundTruth.VisibleExactlyWhen` | src/project_context/evaluation/ground_truth_state.py:53-68 | a change is visible exactly when its earliest mention lies strictly before the cutoff |
| `GroundTruth.VisibleIsChronological` | src/project_context/evaluation/ground_truth_state.py:67-68 | visible changes come by time, then in authored order |
| `GroundTruth.VisibleGrows` | src/project_context/evaluation/ground_truth_state.py:53-68 | what is visible at an earlier cutoff is a prefix of what is visible later |
| `GroundTruth.StateIsIncremental` | src/project_context/evaluation/ground_truth_state.py:93-101 | the carried fields at a later cutoff are those at an earlier one folded over only the changes in between |
| `GroundTruth.StateNeverReverts` | src/project_context/evaluation/ground_truth_state.py:103-143 | existence and supersededness never revert as the cutoff grows |
| `GroundTruth.FieldsAreLastSet` | src/project_context/evaluation/ground_truth_state.py:93-101 | a carried owner, due date or status is the one set by the last visible change that set one |
| `GroundTruth.UnsetFieldsAreEmpty` | src/project_context/evaluation/ground_truth_state.py:93-101 | a carried field has a value exactly when some visible change set one |
| `GroundTruth.MoreMentionsNeverDelay` | src/project_context/evaluation/ground_truth_state.py:46-50 | further mentions never delay a change, and later ones do not move it |

## Left out

- SHA-256 is an injective constructor, Unicode folding (NFKC, lower-casing) an input called `folded`, and a time an integer that is only compared.
- The three reply and forward header patterns of `find_quote_boundary` are an arbitrary predicate on lines; MIME walking, HTML to text and address parsing are not modelled.
- ParseVtt: does not model decoding and its warnings, nor the caption syntax, which a library reads; the name a caption's voice tag holds is an input.
- ParsePdf: does not model the PDF library; the texts it extracts from the pages are the input.
- ParseDocx: does not model the DOCX library; the body's paragraphs, list styles and table cells are the input.
- ParsePlainText: does not model decoding and its warnings.
- ClassifyAction: does not model the `reasons` strings, which only put the escalations into words; the language signals are part of the observation, and `Normalization` models the phrase search that sets them.
- ComputeMatchFeatures: does not model the feature dictionary stored with a score; named-entity extraction and date parsing are inputs, scores are real numbers, and floating-point rounding is not modelled.
- Discover: does not model the checkpoint's JSON form or HTTP, and an artifact carries four of its fields; the remote side is a fixed finite tree whose page tokens are page numbers.
- Exec: does not model SQL, WAL or waiting for locks; a store is the log of its effects, and what SQLite answers to BEGIN and COMMIT is an input.
- RunMigrations: does not model `_split_statements`; a migration carries its statements and whether its text was complete.
- DeterministicText: its wording has no statement beyond what it mentions (`FallbackMentions`).
- PlanModelEligibleSections: does not model the schema's length limits or the model call; the reply is any value.
- RenderMarkdown: does not model the lookups of artifacts and links in the database; a record carries its links, and the artifact of each content is an input.
- RunSchedule: does not model cutoff, token counts and latency columns; a transaction is one atomic step.
- StoreRawArtifact: does not model parsing, chunk rows and file columns; content ids come from a counter instead of a random generator.
- DeleteProject: does not model credential disconnection or foreign keys, which hold again at commit; rows of tables other than contents and artifacts are kept as owner and payload.
- Full-text search, people resolution, the Calendar and Fathom connectors, the review, sync and extraction services, the pages and scripts are not modelled: interface code or single-branch facts.
- `normalize_date`, `extract_named_entities`, retry delays and evaluation scoring would only add easy members.
