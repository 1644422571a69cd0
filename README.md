# Web log analysis: validation, parsing, rules and the anomaly cascade

This project models the analysis core of a small web service. The service
takes access-log lines and reports, for each one, whether it is malformed
("Rejected") or what an anomaly-detection cascade thinks of it ("Normal" or
"Anomaly"). Each report comes with a protocol, a human-readable reason and a
confidence score. The core is `analyze_logs` and the helpers it calls in
`flask_app/app.py`:

- **Line validator** (`LOG_PATTERN`, `is_valid_log`). The pattern
  `^\S+ \S+ \S+ \[[^\]]+\] "\w+ .+ HTTP/\d\.\d" \d+` is applied with
  `re.match`, so it is anchored at the start only. `LogValidator` states it
  twice:
  - `MatchesLogPattern` is a ghost specification with one existential split
    point per variable-length segment.
  - `IsValidLog` is a deterministic scanner.
  - `IsValidLogMatchesPattern` proves that the two agree on every line.
- **HTTP field parser** (`parse_http_features`). `HttpParser.TryParse` is the
  `try` body. Its `None` is the exception path, which collapses to the
  sentinel `("UNKNOWN", "/", 0, "N/A")`. The parser relies on Python's
  `str.split('"')`, `str.split()` and `int()`, which `Text` models over ASCII.
- **Reason rules and confidence** (`get_reason`, `calculate_confidence`).
  `Reasoning.GetReason` is the step-by-step appending method.
  `Reasoning.Reasons` is the specification it is proved against: the messages
  of the rules that fire, in rule order, or the fallback.
- **Cascade** (`analyze_logs` lines 114-130). The three trained models are
  oracles in `Cascade.Models`: each maps a batch of rows to one prediction per
  row. `RunCascade` states the narrowing of candidate indices as functions.
  `LabelBatch` is the imperative version: it writes "Normal" into an array of
  labels in place and is proved equal to `Labels`.
- **Orchestrator** (`analyze_logs`). `Analyzer.AnalyzeLogs` has the two loops
  of the source and is proved equal to the function `Analyze`. Lemmas about
  `Analyze` state what the caller can rely on: one finding per line, the
  rejected lines first, how rejected findings look, and where each verdict
  comes from.

Modules: `Options` (optional values), `Text` (Python string semantics),
`Sequences` (filtering, `np.where`, index-array gathering), `LogValidator`,
`HttpParser`, `Reasoning`, `Cascade` and `Analyzer`.

**Output order.** `analyze_logs` appends a rejected line's finding inside the
validation loop (flask_app/app.py:101) and the classified findings only after
the cascade (flask_app/app.py:138). It builds `index_map` (flask_app/app.py:94,99)
but never reads it. So the result lists the rejected lines first and then the
valid ones, each group in input order, not the lines in input order. The model
keeps this order, and `Analyzer.RejectedReportedFirst` shows it on a two-line
batch.

## Model

| member | source | states |
|---|---|---|
| `Text.Contains` | flask_app/app.py:49 | The substring test `t in s`: some position of `s` starts an occurrence of `t`. `Reasoning.TraversalAnywhere` and `HttpParser.ParsedFields` state what the code draws from it |
| `Text.Join` | flask_app/app.py:142 | `sep.join(parts)`: the pieces with `sep` between neighbours. `Text.SplitOn` proves that joining the pieces of a split with its separator gives back the string |
| `Text.RunEndSpan` | flask_app/app.py:10 | A greedy run of one character class covers only that class and stops at the end of the line or at a character outside it |
| `Text.SpanStopsAtRunEnd` | flask_app/app.py:10 | A class run followed by a character outside the class ends where the greedy scan ends, so the split point of `\S+ `, `[^\]]+\]` and `\w+ ` is unique |
| `Text.SplitOn` | flask_app/app.py:46 | `log.split('"')` has at least one piece, and joining the pieces with `"` gives back the line |
| `Text.SplitOnPieces` | flask_app/app.py:46 | No piece contains the quote, and there is a second piece exactly when the line contains a quote |
| `Text.SecondPiece` | flask_app/app.py:46 | `log.split('"')[1]` exists exactly when the line has a quote, and it is the text between the first quote and the next quote or the end of the line |
| `Text.Words` | flask_app/app.py:47-48 | `str.split()` with no argument, scanning left to right. What it yields is stated by `Text.WordsShape`, `Text.WordsAreRuns` and `Text.LastWord` |
| `Text.WordsShape` | flask_app/app.py:47-48 | `str.split()` yields non-empty runs of non-whitespace, and none exactly when the text is all whitespace |
| `Text.WordsAreRuns` | flask_app/app.py:47-48 | `str.split()` lists the maximal non-whitespace runs in order: there are as many words as runs, and the run with `r` runs before it is word `r` |
| `Text.LastWord` | flask_app/app.py:48 | `log.split()[-1]` exists exactly when the line has a last token (a maximal non-whitespace run followed only by whitespace), and it is that token |
| `Text.ParseInt` | flask_app/app.py:48 | `int()` succeeds exactly on an optional sign followed by one to 4300 ASCII digits (the default digit limit of Python 3.11 and later) |
| `Text.ParseIntRoundTrip` | flask_app/app.py:48 | Parsing the decimal text of any integer that `str()` formats (at most 4300 digits) gives that integer back |
| `LogValidator.MatchesLogPattern` | flask_app/app.py:9-11 | The pattern read as a concatenation from the first character, with one existential split point per variable-length segment. It is the reference that `IsValidLog` is proved against |
| `LogValidator.IsValidLog` | flask_app/app.py:13-14 | `is_valid_log`, as a deterministic left-to-right scan. `LogValidator.IsValidLogMatchesPattern` proves it true exactly on the lines that match `MatchesLogPattern` |
| `LogValidator.VersionCorrect` | flask_app/app.py:10 | The scanner's fixed-width check accepts exactly `\d\.\d" \d+` |
| `LogValidator.SearchTargetCorrect` | flask_app/app.py:10 | The left-to-right search finds a split of `.+ HTTP/` followed by a version exactly when one exists, without crossing a newline |
| `LogValidator.TargetCorrect` | flask_app/app.py:10 | The target check agrees with `.+ HTTP/\d\.\d" \d+` |
| `LogValidator.RequestCorrect` | flask_app/app.py:10 | The request check agrees with `\w+ ` followed by the target |
| `LogValidator.BracketCorrect` | flask_app/app.py:10 | The bracket check agrees with `\[[^\]]+\] "` followed by the request |
| `LogValidator.TokensCorrect` | flask_app/app.py:10 | The token check agrees with `n` repetitions of `\S+ ` followed by the bracket |
| `LogValidator.IsValidLogMatchesPattern` | flask_app/app.py:9-14 | `is_valid_log` is true exactly when the line matches the pattern from its first character |
| `LogValidator.TokensNeedQuote` | flask_app/app.py:10 | Any match of the pattern's tail contains a double quote |
| `LogValidator.ValidLogHasQuote` | flask_app/app.py:9-14 | A valid line contains a double quote, so the empty line and any line without `"` are invalid |
| `LogValidator.ExtendTokens` | flask_app/app.py:10 | A match of the pattern survives any text appended to the line |
| `LogValidator.ValidLogAllowsSuffix` | flask_app/app.py:9-14 | The pattern has no end anchor: a valid line stays valid with anything appended |
| `HttpParser.TryParse` | flask_app/app.py:45-50 | The `try` body: `None` wherever a step raises (no quote, not three request tokens, no token, a last token `int()` refuses), otherwise the four fields. `HttpParser.ParseOutcomes` states when each happens |
| `HttpParser.ParseHttpFeatures` | flask_app/app.py:44-52 | `parse_http_features`: the parsed fields, or the sentinel `("UNKNOWN", "/", 0, "N/A")` when the `try` body raises. `HttpParser.ParseOutcomes`, `HttpParser.ParsedFields` and `HttpParser.ParsedRuns` state its result |
| `HttpParser.ParseOutcomes` | flask_app/app.py:44-52 | The parser never mixes: protocol "N/A" means the whole sentinel. It succeeds exactly when the quoted request has three tokens and the last token of the line is an integer |
| `HttpParser.ParsedFields` | flask_app/app.py:46-49 | On success the method and path are the first two tokens of the quoted request, the status is the value of the line's last token, and the protocol is HTTPS exactly when "HTTPS" occurs anywhere in the line |
| `HttpParser.ParsedRuns` | flask_app/app.py:46-47 | On success the quoted request holds exactly three maximal non-whitespace runs; the method is the first run and the path the second |
| `Reasoning.Reasons` | flask_app/app.py:55-73 | The reasons `get_reason` returns, as a specification: the messages of the rules that fire, in rule order, or the fallback alone. `Reasoning.GetReason` is proved equal to it; `ReasonsMatchRules`, `ReasonsFallback` and `ReasonsOrdered` state its properties |
| `Reasoning.FiredInSequence` | flask_app/app.py:58-68 | Testing the rule list in order is the four conditional appends in sequence |
| `Reasoning.GetReason` | flask_app/app.py:55-73 | The appended list is the messages of the rules that fire, in rule order, or the fallback alone when none fires |
| `Reasoning.CalculateConfidence` | flask_app/app.py:76-82 | 100 for a rejection; otherwise 40 plus 15 per reason, capped at 98 |
| `Reasoning.ConfidenceMonotone` | flask_app/app.py:80-82 | More reasons never lower a classified finding's confidence |
| `Reasoning.FiredMembers` | flask_app/app.py:58-68 | The rules reported are exactly the listed rules that fire, and no more of them than listed |
| `Reasoning.RankOfMessage` | flask_app/app.py:59-71 | The four messages and the fallback are distinct and ranked in the order the code checks them |
| `Reasoning.FiredKeepsOrder` | flask_app/app.py:58-68 | Filtering the ordered rules to those that fire keeps them in order |
| `Reasoning.MessageIn` | flask_app/app.py:59-68 | A rule's message is among the messages of a rule list exactly when the rule is in the list |
| `Reasoning.ReasonsMatchRules` | flask_app/app.py:58-68 | Each rule's message is in the reasons exactly when that rule fires |
| `Reasoning.ReasonsFallback` | flask_app/app.py:70-73 | One to four reasons; "Statistical anomaly" is present exactly when no rule fires, and then it is the only reason |
| `Reasoning.ReasonsOrdered` | flask_app/app.py:55-73 | The reasons follow the fixed rule order |
| `Reasoning.AdminPostForbidden` | flask_app/app.py:55-82 | POST to /admin answered 403 gives the sensitive-endpoint, error-response and high-risk-method reasons, in that order, and confidence 85 |
| `Reasoning.TraversalAnywhere` | flask_app/app.py:61-62 | Any path containing ".." trips the traversal rule, for any method and status |
| `Reasoning.TraversalExample` | flask_app/app.py:61-62 | "/files/../etc/passwd" trips the traversal rule for any method and status |
| `Sequences.Select` | flask_app/app.py:120-127 | `a[idx]` with an index array: one element per index, the element of `a` at that index. `Sequences.FilterIsSelect` and `Sequences.SelectIncreasing` relate it to filtering and order |
| `Sequences.FilterSatisfies` | flask_app/app.py:97-98 | Every kept element satisfies the test |
| `Sequences.FilterIndices` | flask_app/app.py:117 | `np.where` gives increasing positions inside the array, at most one per element |
| `Sequences.FilterIndicesMembers` | flask_app/app.py:117 | `np.where(pred == 1)[0]` lists exactly the positions where the prediction is 1 |
| `Sequences.FilterIsSelect` | flask_app/app.py:96-99 | Filtering lines is gathering them at the filtered positions, so the filter keeps input order |
| `Sequences.FilterPartition` | flask_app/app.py:96-107 | Splitting lines into valid and rejected loses and invents none: the two groups together are the input as a multiset |
| `Sequences.SelectIncreasing` | flask_app/app.py:124 | Masking an increasing index list keeps it increasing |
| `Cascade.Where` | flask_app/app.py:117 | `np.where(pred == 1)[0]`. `Sequences.FilterIndices` and `Sequences.FilterIndicesMembers` state that it lists, in increasing order, exactly the positions predicted 1 |
| `Cascade.Keep` | flask_app/app.py:124 | `normal_idx[pred == 1]` is no longer than `normal_idx` and stays increasing |
| `Cascade.KeepMembers` | flask_app/app.py:124 | An index survives the mask exactly when the prediction at its position is 1 |
| `Cascade.KeepSubset` | flask_app/app.py:124 | Masking only drops indices |
| `Cascade.RunCascade` | flask_app/app.py:116-130 | Stage A and Stage B survivors are rows of the batch, and Stage B changes nothing when fewer than two rows pass Stage A |
| `Cascade.CascadeNarrows` | flask_app/app.py:116-130 | The survivor lists are increasing, drawn from the batch, and nested: Stage C within Stage B within Stage A |
| `Cascade.MarkAt` | flask_app/app.py:114-130 | A row is Normal exactly when it is listed, Anomaly otherwise |
| `Cascade.DenseCandidates` | flask_app/app.py:116-124 | The loop-free update of `normal_idx` yields the Stage B survivors |
| `Cascade.MarkNormal` | flask_app/app.py:128-130 | The in-place loop writes Normal exactly at the indices the last model accepts and leaves every other label unchanged |
| `Cascade.LabelBatch` | flask_app/app.py:114-130 | Starting from all-Anomaly, the array after the cascade is the label list of the batch |
| `Cascade.Labels` | flask_app/app.py:114-130 | `final_labels` as a function: one label per row, Normal at the Stage C survivors. `Cascade.NormalIffAllStagesAgree` states which rows are Normal, and `Cascade.LabelBatch` is proved equal to it |
| `Cascade.LabelsOfNormal` | flask_app/app.py:128-130 | Marking the Stage C survivors Normal and nothing else gives the batch's labels |
| `Cascade.NormalIffAllStagesAgree` | flask_app/app.py:114-130 | A row is Normal exactly when all three stages agree. Stage A predicts 1 for it. Stage B predicts 1 at its position among Stage A's survivors, unless fewer than two survived. Stage C predicts 1 at its position among the remaining rows |
| `Cascade.StageBSkipped` | flask_app/app.py:122-123 | With fewer than two Stage A survivors, the density model's answer does not matter |
| `Cascade.SingleRowIgnoresStageB` | flask_app/app.py:122-123 | A one-line batch is labelled without the density model |
| `Cascade.EmptyBatchHasNoNormal` | flask_app/app.py:117-119 | An empty batch labels nothing Normal |
| `Analyzer.RejectedFinding` | flask_app/app.py:101-107 | The finding for a line that fails the pattern. `Analyzer.RejectedFields` states its fields |
| `Analyzer.ClassifiedFinding` | flask_app/app.py:134-144 | The finding for a valid line with its label: parse, explain, score. `Analyzer.ClassifiedFields` and `Analyzer.UnparsableValidLine` state its fields |
| `Analyzer.RejectedStep` | flask_app/app.py:100-107 | One more line adds a rejected finding exactly when it is invalid |
| `Analyzer.ValidateStep` | flask_app/app.py:96-107 | One more line extends exactly one accumulator: its finding, or the line and its input position |
| `Analyzer.ValidateLines` | flask_app/app.py:96-107 | The loop yields the rejected findings of the invalid lines, the valid lines, and their input positions, each in input order |
| `Analyzer.ClassifiedFindingAt` | flask_app/app.py:133-144 | The k-th classified finding is that of the k-th valid line with the k-th label |
| `Analyzer.ClassifyLine` | flask_app/app.py:134-144 | The finding for a valid line keeps the line and its verdict, carries the parsed protocol, has a non-empty reason and scores 55 to 98; an unparsable line gets the fallback reason and 55. It is the finding `Analyze` lists for that line |
| `Analyzer.AppendClassified` | flask_app/app.py:133-146 | The valid lines' findings are appended after the earlier results, in order |
| `Analyzer.AnalyzeLogs` | flask_app/app.py:88-146 | The method returns the rejected findings and, when some line is valid, the classified findings after them |
| `Analyzer.Analyze` | flask_app/app.py:88-146 | `analyze_logs` as a function: the rejected findings, then, when some line is valid, the classified findings. `Analyzer.AnalyzeLogs` is proved equal to it, and the lemmas below state its properties |
| `Analyzer.AnalyzeLength` | flask_app/app.py:96-146 | One finding per rejected line and one per valid line |
| `Analyzer.Layout` | flask_app/app.py:101-144 | The rejected findings come first, then the classified ones, each at its offset |
| `Analyzer.LayoutLog` | flask_app/app.py:101-139 | The line of each finding |
| `Analyzer.LayoutStatus` | flask_app/app.py:101-140 | The status of each finding, and the whole finding when it is a rejected one |
| `Analyzer.EveryLineReported` | flask_app/app.py:96-146 | One finding per input line: the rejected lines then the valid ones, each in input order, and as a multiset exactly the input |
| `Analyzer.RejectedIffInvalid` | flask_app/app.py:97-107 | A finding is Rejected exactly when its line fails the log pattern |
| `Analyzer.RejectedComeFirst` | flask_app/app.py:101-138 | No classified finding precedes a rejected one |
| `Analyzer.RejectedFields` | flask_app/app.py:101-107 | A rejected finding has protocol "N/A", the fixed reason and confidence 100 |
| `Analyzer.VerdictFromCascade` | flask_app/app.py:138-140 | A classified finding reports the valid line at its offset, with the label the cascade gives it within the batch |
| `Analyzer.ClassifiedFields` | flask_app/app.py:134-143 | A classified finding keeps its verdict, has a non-empty reason, and scores between 55 and 98, with 40 plus 15 per reason up to three |
| `Analyzer.UnparsableValidLine` | flask_app/app.py:134-143 | A valid line the parser cannot read is still classified, with protocol "N/A", the fallback reason and confidence 55 |
| `Analyzer.SentinelHasNoRule` | flask_app/app.py:52-73 | The placeholder request trips no rule |
| `Analyzer.NoValidLineIgnoresModels` | flask_app/app.py:109-110 | With no valid line the models are never consulted and every finding is Rejected |
| `Analyzer.RejectedReportedFirst` | flask_app/app.py:96-146 | A valid line followed by an invalid one is reported after it: the result is not in input order |

## Left out

- The web routes, the file upload and its UTF-8/latin-1 decoding, and `jsonify` (flask_app/app.py:152-190) are transport. They are not part of this model.
- Loading the trained models with `joblib.load` (flask_app/app.py:26-29) is a foreign call on opaque files. The three models are parameters of `AnalyzeLogs`.
- `extract_features` (flask_app/app.py:35-38) builds TF-IDF float rows with an external library. It works line by line, so a row is represented by its line. The feature values carry no logic the model needs.
- `Cascade.WellFormed`: it requires only one prediction per row. It does not restrict predictions to 1 and -1, because the code only ever compares them with 1.
- `lof.fit_predict` refits a model object shared by every request. That mutable state, and any concurrency around it, is not modelled: the density model is a pure function of the rows it is given.
- `Analyzer.ValidateLines`: it builds `index_map` exactly as the code does. The code never reads it, so nothing downstream depends on it.
- `Text.IsSpace`: it covers the ASCII whitespace that `str.split()` and `\s` recognise, but not Unicode whitespace such as U+00A0 or U+2003.
- `LogValidator.IsValidLog`: `\w` and `\d` are ASCII here, while Python's `re` also accepts non-ASCII letters and digits for them.
- `Text.ParseInt`: it accepts an optional sign and ASCII digits only. Python's `int()` also takes underscores between digits, surrounding whitespace and non-ASCII digits; tokens from `str.split()` never carry whitespace. It assumes the default limit of 4300 digits of Python 3.11 and later (also 3.10.7 and 3.9.14); on older versions, which have no limit, a longer status token parses instead of yielding the sentinel.
- The labels array stands for the numpy string array `final_labels`; its dtype is not modelled.
