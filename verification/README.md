# cplus-plugin core, modelled in Dafny

This project models the sequential decision logic of the CPLUS QGIS plugin.
That logic sits beneath its Qt, QGIS and network layers, and the project proves
properties of it. There is one module per source file:

- `ApiRequest` (`api_request.dfy`) covers the remote job client:
  - the endpoint URL templates;
  - the multipart part count and the upload request bodies;
  - the bearer-token cache, against an injected integer clock;
  - the status poller `CplusApiPooling.results`;
  - the part-upload retry and back-off loop;
  - the status code each facade call accepts.

  The network is a sequence of replies, each a `(body, status)` or a network error.
  `time.sleep` appends to a delay log.
- `Financial` (`financial.dfy`) covers the activity NPV collection:
  - lookup by activity id;
  - the computed normalisation range;
  - clamped linear normalisation, over `real`.
- `MetricsBuilder` (`metrics_builder.dfy`) covers:
  - the name-unique metric column list (add, remove, adjacent move);
  - the metric-type transitions of one table cell;
  - the row and column bookkeeping of the activity metric table.

  The Qt item models are sequences.
- `ReportManager` (`report_manager.dfy`) covers removing the plugin's report variables from a layout's parallel name and value lists, then registering them again.
- `ScenarioOutput` (`scenario_output.dfy`) covers:
  - download path planning and the final output;
  - the missing-path check and the retry rounds;
  - rebuilding activities and the scenario from the downloaded file names.

  File existence is a set of paths per round.
- `NpvTable` (`npv_table.dfy`) covers the year table of the NPV manager dialog and of the financial PWL dialog:
  - row validation;
  - discounted values and the NPV sum;
  - the item-changed rules;
  - copying the table to the current activity and loading it back.

  `compute_discount_value`, `round(…, 2)`, the number formatter and `float()` are function parameters.

`Wrappers` (`wrappers.dfy`) holds `Option` and `Result`. `Models` (`models.dfy`) holds the `Activity` record.

Where the code and its documentation disagree, the model follows the code. In particular:
- `item_from_name` uses Qt's `MatchFixedString`, which is a case-insensitive comparison. It is modelled as ASCII case folding.
- Header setting, JSON decoding, the upload loop, the poller, the retry rounds, the final check, the list-column removal and the table's column move are each modelled twice. One member follows the code as written and one follows the evident intent, and the difference is shown under "Findings".

## Model

| member | source | states |
|---|---|---|
| ApiRequest.UrlDeterminesIdentifier | src/cplus_plugin/api/request.py:329-450 | Two URLs built from the same endpoint template are equal only when the uuids (or versions) inserted into them are equal. |
| ApiRequest.UrlLayout | src/cplus_plugin/api/request.py:329-450 | Every endpoint URL is the base URL, then the template's fixed path, then the identifier inserted verbatim, then the template's fixed suffix. |
| ApiRequest.SubmitUrlVersionTag | src/cplus_plugin/api/request.py:380-392 | The scenario-submit URL carries `?plugin_version=v` exactly when the version is truthy. The tagged URL is the untagged one extended by that query. |
| ApiRequest.OutputListIsFirstPage | src/cplus_plugin/api/request.py:438-450 | The output-list URL for a scenario always ends by asking for page 1 with a page size of 100. |
| ApiRequest.NumberOfParts | src/cplus_plugin/api/request.py:21 | An empty file has no parts. Otherwise the part count is the least number of 100 MiB chunks that covers the file: `(parts-1)*CHUNK < size <= parts*CHUNK`. |
| ApiRequest.StartUploadRequest | src/cplus_plugin/api/request.py:538-562 | The start-upload body is private, carries the file's name and size, and has the number of parts that covers the size. |
| ApiRequest.FinishUploadRequest | src/cplus_plugin/api/request.py:564-590 | The finish-upload body includes the upload id only when it is truthy, and the items only when some were uploaded. Each is included unchanged. |
| ApiRequest.ApiToken | src/cplus_plugin/api/request.py:471-509 | A login request is posted exactly when no token is valid (one valid for more than an hour more) and credentials exist. A valid token is returned as is. A missing credential gives None. A login answered with a status other than 200 raises with the body's description, defaulting to "Unknwon Error!". Qt delivers such a reply only for a status below 400. A 200 reply without a token raises. Only a successful login changes the cache, storing the token with an expiry one day ahead. |
| ApiRequest.FreshTokenWindow | src/cplus_plugin/api/request.py:471-509 | A token obtained at time t is reused with no request for any read before t + 23h. The first read from then on logs in again. |
| ApiRequest.LoginNeverSucceedsAsWritten | src/cplus_plugin/api/request.py:87-95 | With the decoding as written, a 200 login reply is always reported as a missing access token. |
| ApiRequest.LoginSucceedsWithDecodedToken | src/cplus_plugin/api/request.py:482-509 | With the intended decoding, a 200 login reply whose text carries an access token returns that token and caches it. |
| ApiRequest.SetHeadersAsWritten | src/cplus_plugin/api/request.py:80-85 | As written, applying a header dictionary succeeds exactly when every key is two characters long, because each key string is unpacked into a (name, value) pair of one character each. Otherwise it raises on a key of another length. |
| ApiRequest.SetHeaders | src/cplus_plugin/api/request.py:80-85 | Iterating the items instead sets every listed header, and sets no header that was not listed. |
| ApiRequest.HeadersNeverSetAsWritten | src/cplus_plugin/api/request.py:72-85 | As written, the job client's default headers fail on "Authorization" and the login's explicit headers fail on "Content-Type". So no request is ever sent. |
| ApiRequest.IntendedHeadersCarryToken | src/cplus_plugin/api/request.py:465-469 | With the items iterated, a call carries `Bearer <token>` and the JSON content type, and the login carries the JSON content type. |
| ApiRequest.Results | src/cplus_plugin/api/request.py:275-296 | The poller as written consumes only the replies it is given. With the cancelled flag set it returns the synthetic "Cancelled" body with no request, sleep or callback, and leaves the counter as it was. |
| ApiRequest.ResultsFrame | src/cplus_plugin/api/request.py:275-296 | Every poll consumes a prefix of the replies and never lowers the counter. It times out only when the counter has reached a limit other than -1. Under a limit it makes at most `limit - 1 - current_repeat` status requests. |
| ApiRequest.ResultsSleepsInterval | src/cplus_plugin/api/request.py:287-296 | Every sleep the poller takes lasts `interval`. |
| ApiRequest.ResultsObservesEvery200 | src/cplus_plugin/api/request.py:284-288 | Every 200 reply the poller consumes reaches `on_response_fetched`, in order, and no other reply does. |
| ApiRequest.ResultsReturnsTerminal | src/cplus_plugin/api/request.py:277-291 | A returned body always has a terminal status. Unless it is the synthetic cancellation reply, it is the last body passed to the callback. |
| ApiRequest.AllPendingEach | src/cplus_plugin/api/request.py:283-296 | A job whose every reply is a non-terminal 200 is the same whether read reply by reply or recursively. |
| ApiRequest.TimeoutDoublesWait | src/cplus_plugin/api/request.py:279-296 | As written, against a job that never finishes, the poller makes `limit - 1 - current_repeat` requests and sleeps twice as often. The counter overshoots the limit by the number of requests, because each frame that recursed inside its `try` catches the timeout. |
| ApiRequest.ResultsIntended | src/cplus_plugin/api/request.py:275-296 | The intended poller consumes only the replies it is given. With the cancelled flag set it returns the synthetic "Cancelled" body without a request and with the counter unchanged. |
| ApiRequest.ResultsIntendedFrame | src/cplus_plugin/api/request.py:275-296 | The intended poller keeps the same bookkeeping: a prefix of the replies, a monotone counter, a timeout only at the limit, and a bounded number of requests. |
| ApiRequest.IntendedTimeoutSleepsOncePerRequest | src/cplus_plugin/api/request.py:279-296 | With the intended poller, a job that never finishes times out after `limit - 1 - current_repeat` requests and as many sleeps, with the counter exactly at the limit. |
| ApiRequest.PollCompletesOnFourthRequest | src/cplus_plugin/api/request.py:275-296 | Three "Pending" replies then "Completed": the completed body is returned after four requests and three sleeps, and the callback sees all four bodies in order. |
| ApiRequest.PollLimitFiveTimesOutOnFifthAttempt | src/cplus_plugin/api/request.py:229-296 | With `max_limit=5` and a job that never finishes, the timeout comes after four requests. The poller as written has slept eight intervals by then, the intended one four. |
| ApiRequest.Backoff | src/cplus_plugin/api/request.py:212-217 | The back-off after failures lo+1 … hi is the list of sleeps 2^(lo+1), …, 2^hi seconds. |
| ApiRequest.UploadLoop | src/cplus_plugin/api/request.py:204-219 | The loop as written never returns a part. It keeps sending while PUTs succeed, and returns None only when `max_retries` is not positive. |
| ApiRequest.UploadLoopRaises | src/cplus_plugin/api/request.py:204-219 | As written, the loop re-raises exactly when the `max_retries`-th failure happens. That failure is the last PUT made, after one back-off sleep per earlier failure. |
| ApiRequest.UploadLoopExhausts | src/cplus_plugin/api/request.py:204-219 | As written, running out of replies means fewer than `max_retries` failures occurred. Every PUT was made, and each failure was followed by its back-off sleep. |
| ApiRequest.UploadFilePart | src/cplus_plugin/api/request.py:204-219 | `upload_file_part` starts the loop as written with no failures counted. |
| ApiRequest.UploadLoopIntended | src/cplus_plugin/api/request.py:204-219 | The intended loop returns the part number and ETag of the first successful PUT. |
| ApiRequest.UploadLoopIntendedReturns | src/cplus_plugin/api/request.py:204-219 | In the intended loop, a returned part carries the ETag of the PUT that succeeded. Every earlier PUT failed, and each was followed by its back-off sleep. |
| ApiRequest.UploadLoopIntendedRaises | src/cplus_plugin/api/request.py:204-219 | The intended loop re-raises the `max_retries`-th failure after one back-off sleep per earlier failure. |
| ApiRequest.UploadLoopIntendedExhausts | src/cplus_plugin/api/request.py:204-219 | The intended loop runs out of replies only when every PUT failed and fewer than `max_retries` were made. |
| ApiRequest.IntendedUploadRecoversOnFifthPut | src/cplus_plugin/api/request.py:204-219 | With five retries, four failures then a success: the intended loop returns that part after five PUTs and sleeps of 2, 4, 8 and 16 seconds. |
| ApiRequest.UploadGivesUpAfterFiveFailures | src/cplus_plugin/api/request.py:204-219 | Five failures in a row: both loops re-raise the fifth after five PUTs and sleeps of 2, 4, 8 and 16 seconds. |
| ApiRequest.UploadAsWrittenResendsAfterSuccess | src/cplus_plugin/api/request.py:204-219 | As written, three successful PUTs in a row are all consumed and the loop waits for a fourth, where the intended loop returns the first. |
| ApiRequest.Call | src/cplus_plugin/api/request.py:538-697 | Once the headers are built, a facade call raises on a network error, as `_handle_response` (request.py:97-117) does. Qt reports 4xx and 5xx statuses as network errors. A delivered reply whose status differs from the one the call requires raises with the body's `detail` (default ""). The required statuses are: start upload 201, abort 204, submit 201, execute 201, cancel 200, output list 200, detail 200. Otherwise the call succeeds and returns the body unchanged, `True`, or the new scenario's uuid. |
| ApiRequest.AuthorizedCall | src/cplus_plugin/api/request.py:131-162 | Building the default headers reads `api_token` before anything is sent (lines 140 and 157, through 465-469). If that read raises, the call fails with the authentication error, sends nothing, and leaves the cache as it was. Otherwise the call's own reply decides the result, against the cache the token read left. |
| ApiRequest.AuthorizedCallSucceedsIff | src/cplus_plugin/api/request.py:538-697 | A facade call succeeds exactly when all of these hold: the token read does not raise, and the reply is not a network error (4xx and 5xx included). The status is the one the call requires, if any. A submit reply carries a uuid. |
| ApiRequest.ValidTokenCallNeedsNoLogin | src/cplus_plugin/api/request.py:471-481 | While the cached token is valid, a call ignores the login reply and the stored credentials. The result is the plain call's, and the cache is unchanged. |
| ApiRequest.RejectedLoginNeverSends | src/cplus_plugin/api/request.py:478-502 | Take an expired token, stored credentials and a login answered with a status other than 200 that Qt delivers without error, so below 400. Then the call raises "Error authenticating" with that status and description. Its own request is never sent. |
| ApiRequest.LoginServesLaterCall | src/cplus_plugin/api/request.py:478-509 | A call that logged in leaves a token that the next call, made within 23 hours, uses without a login. |
| Financial.FirstMatch | src/cplus_plugin/models/financial.py:67-73 | The index of the first mapping with the id, or None exactly when no mapping has it. |
| Financial.ActivityNpvLookup | src/cplus_plugin/models/financial.py:57-73 | Returns None exactly when no mapping has the id. Otherwise it returns a mapping of the collection with that id. |
| Financial.EmptyIdFindsUnassigned | src/cplus_plugin/models/financial.py:33-73 | Looking up "" returns the first mapping without an activity, when every earlier one has an activity with a non-empty uuid. |
| Financial.ValidNpvValues | src/cplus_plugin/models/financial.py:86-90 | Every truthy absolute NPV is listed, and every listed value is the truthy absolute NPV of some mapping. |
| Financial.UpdateComputedNormalizationRange | src/cplus_plugin/models/financial.py:75-97 | Succeeds exactly when some mapping has a truthy absolute NPV. On failure the collection is unchanged. On success only min and max change: min ≤ max, both are attained by some mapping, and they bound every truthy absolute NPV. |
| Financial.Normalized | src/cplus_plugin/models/financial.py:126-131 | The normalised value lies in [0, 1], and is 0 at or below the minimum and 1 at or above the maximum. |
| Financial.NormalizeNpvs | src/cplus_plugin/models/financial.py:99-133 | Succeeds exactly when min < max; otherwise nothing changes. Only `normalized_npv` fields are written, mappings without a truthy absolute NPV are untouched, and on success every written value lies in [0, 1]. |
| Financial.NormalizedValueOfEntry | src/cplus_plugin/models/financial.py:121-133 | A normalised entry is 0 at or below the minimum, 1 at or above the maximum, and at (v-min)/(max-min) in between. |
| Financial.NormalizedMonotone | src/cplus_plugin/models/financial.py:126-131 | A larger absolute NPV never receives a smaller normalised value. |
| Financial.ComputedRangeSpansZeroToOne | src/cplus_plugin/models/financial.py:75-133 | After computing the range from the mappings themselves, normalisation maps some mapping to 0 and some to 1, whenever the range is not a single point. |
| MetricsBuilder.NamedColumnValidity | src/cplus_plugin/gui/metrics_builder_model.py:142-153 | A column built from a bare name is valid exactly when the name is non-empty. |
| MetricsBuilder.ItemFromName | src/cplus_plugin/gui/metrics_builder_model.py:265-283 | Finds the first column whose name matches, ignoring letter case, or None exactly when none matches. |
| MetricsBuilder.AddColumn | src/cplus_plugin/gui/metrics_builder_model.py:226-247 | Refused, with the list unchanged, exactly when a column with a matching name exists. Otherwise the column is appended at the end and returned. |
| MetricsBuilder.AddNewColumn | src/cplus_plugin/gui/metrics_builder_model.py:207-224 | Reports success exactly when no existing name matches. On success the column built from the name or model is appended; otherwise the list is unchanged. |
| MetricsBuilder.AddColumnKeepsNamesUnique | src/cplus_plugin/gui/metrics_builder_model.py:226-247 | Adding to a list whose names are unique, ignoring case, keeps them unique. |
| MetricsBuilder.RemoveListColumn | src/cplus_plugin/gui/metrics_builder_model.py:285-306 | The intended removal, which emits the row number. It reports failure, with the list unchanged, exactly when no name matches. Otherwise only the first matching column is removed and the rest keep their order. |
| MetricsBuilder.RemoveListColumnAsWritten | src/cplus_plugin/gui/metrics_builder_model.py:285-306 | As written, the list afterwards is the intended one. A matching column is removed, then the call raises instead of returning True, because the item is emitted on a signal declared with an `int` (line 191). Without a match it returns False. |
| MetricsBuilder.RemoveListColumnNeverReturnsTrue | src/cplus_plugin/gui/metrics_builder_model.py:300-306 | As written, removing a present name shortens the list by one and then raises, so the call never reports success. |
| MetricsBuilder.RemoveListColumnDropsName | src/cplus_plugin/gui/metrics_builder_model.py:285-306 | In a list with unique names, removing a name leaves no matching column and keeps the names unique. |
| MetricsBuilder.MoveListColumn | src/cplus_plugin/gui/metrics_builder_model.py:332-364 | A move is refused (-1, nothing changes) for UP at the first row and DOWN at the last row. Otherwise the column swaps with its neighbour and its new row, row ∓ 1, is returned. |
| MetricsBuilder.MoveListColumnInverse | src/cplus_plugin/gui/metrics_builder_model.py:332-364 | A move permutes the list and keeps its names unique. Moving back from the new row restores the original list. |
| MetricsBuilder.UpdateMetricType | src/cplus_plugin/gui/metrics_builder_model.py:464-478 | The same type leaves the cell untouched. A new type replaces both the type and the expression. The activity and column never change. |
| MetricsBuilder.UpdateMetricTypeIdempotent | src/cplus_plugin/gui/metrics_builder_model.py:474-478 | Setting a type a second time changes nothing, whatever expression comes with it. |
| MetricsBuilder.UpdateMetricModel | src/cplus_plugin/gui/metrics_builder_model.py:483-502 | The cell always takes the new column. Unset becomes a column metric with a non-empty column expression, and a column metric becomes unset with "" when the expression is empty. A custom metric keeps its type and expression. |
| MetricsBuilder.UpdateMetricModelAligns | src/cplus_plugin/gui/metrics_builder_model.py:489-502 | After an update, a non-custom cell is a column metric exactly when its column has an expression. Updating twice with the same column equals updating once. |
| MetricsBuilder.ColumnMetricKeepsOwnExpression | src/cplus_plugin/gui/metrics_builder_model.py:489-502 | A column metric whose column changes to another non-empty expression keeps its previous expression. |
| MetricsBuilder.AppendActivityExtendsActivities | src/cplus_plugin/gui/metrics_builder_model.py:642-685 | After `append_activity`, the table's activities are the previous ones followed by the new activity when it was accepted, and are unchanged when it was refused. |
| MetricsBuilder.HasActivityIffListed | src/cplus_plugin/gui/metrics_builder_model.py:642-685 | An activity is refused as a duplicate exactly when one of the listed activities has its uuid. |
| MetricsBuilder.NewMetric | src/cplus_plugin/gui/metrics_builder_model.py:666-671 | A fresh cell is a column metric exactly when its column has an expression, and is never custom. |
| MetricsBuilder.AppendColumn | src/cplus_plugin/gui/metrics_builder_model.py:559-588 | Adds one header, one recorded metric column, and one fresh metric cell at the end of every row. The table stays well formed. |
| MetricsBuilder.AppendColumnPreservesAlignment | src/cplus_plugin/gui/metrics_builder_model.py:559-588 | Appending a column keeps every grid column showing its recorded metric column. |
| MetricsBuilder.RemoveTableColumn | src/cplus_plugin/gui/metrics_builder_model.py:590-612 | -1 is refused with nothing changed. A metric index removes grid column index+1 and the recorded column. Another negative index removes only the recorded column counted from the end, and an index out of range raises. |
| MetricsBuilder.RemoveTableColumnPreservesAlignment | src/cplus_plugin/gui/metrics_builder_model.py:590-612 | Removing a metric column by its index keeps the table well formed and aligned. |
| MetricsBuilder.UpdateColumnProperties | src/cplus_plugin/gui/metrics_builder_model.py:614-640 | The name column and indexes past the last column are refused unchanged. A metric index replaces the header, the recorded column and every cell's column definition. A negative index below -1 replaces only the recorded column counted from the end, or raises. |
| MetricsBuilder.UpdateColumnPropertiesPreservesAlignment | src/cplus_plugin/gui/metrics_builder_model.py:614-640 | Updating a metric column in place keeps the table well formed and aligned. |
| MetricsBuilder.AppendActivity | src/cplus_plugin/gui/metrics_builder_model.py:642-676 | Refused, with the table unchanged, exactly when a row already holds an activity with the same uuid. Otherwise the new row is appended last. |
| MetricsBuilder.AppendActivityTwiceRefused | src/cplus_plugin/gui/metrics_builder_model.py:653-657 | Once an activity has been appended, appending it again is refused and changes nothing. |
| MetricsBuilder.AppendActivityPreservesAlignment | src/cplus_plugin/gui/metrics_builder_model.py:642-676 | Appending keeps the table well formed and aligned, with activity uuids unique. |
| MetricsBuilder.MoveTableColumn | src/cplus_plugin/gui/metrics_builder_model.py:687-724 | As written, LEFT is refused at index ≤ 1 and RIGHT at the last column. Otherwise the header and cells trade places with their neighbour, while the recorded metric columns keep their order. |
| MetricsBuilder.MoveTableColumnMisaligns | src/cplus_plugin/gui/metrics_builder_model.py:718-724 | As written, moving the first metric column right leaves the grid no longer aligned with the recorded columns. A row appended afterwards gets a metric under the wrong header, and RIGHT at index 0 moves the name column. |
| MetricsBuilder.MoveTableColumnIntended | src/cplus_plugin/gui/metrics_builder_model.py:687-724 | The intended move never moves the name column, and reorders the recorded metric columns with the grid. |
| MetricsBuilder.MoveTableColumnIntendedPreservesAlignment | src/cplus_plugin/gui/metrics_builder_model.py:687-724 | The intended move keeps the table well formed and aligned. |
| MetricsBuilder.MoveTableColumnIntendedInverse | src/cplus_plugin/gui/metrics_builder_model.py:687-724 | An intended move followed by the opposite move from the new index restores the table. |
| MetricsBuilder.NewTable | src/cplus_plugin/gui/metrics_builder_model.py:538-547 | A new table has the activity-name header alone, no rows, and the given metric columns, or none when `columns` is None. It is well formed, with one header per column, exactly when it starts with no metric columns. Being well formed then implies it is aligned. |
| ReportManager.StripPairsKeepsOrder | src/cplus_plugin/lib/reports/report_manager.py:82-94 | Removing a name from parallel lists keeps exactly the pairs with other names, each name beside its own value, in their original order. |
| ReportManager.StripPairsFailsIff | src/cplus_plugin/lib/reports/report_manager.py:91-94 | Removal raises exactly when the name occurs at an index the values list does not reach. |
| ReportManager.StripPairsOfParallelLists | src/cplus_plugin/lib/reports/report_manager.py:91-94 | Lists of equal length never raise, and stay equal in length. |
| ReportManager.StripPairsAbsent | src/cplus_plugin/lib/reports/report_manager.py:91-94 | Lists that do not contain the name come back unchanged. |
| ReportManager.StripPairsPop | src/cplus_plugin/lib/reports/report_manager.py:92-94 | Popping the first occurrence from both lists does not change the result of stripping. |
| ReportManager.IndexOf | src/cplus_plugin/lib/reports/report_manager.py:92 | `list.index` gives the first position holding the name. |
| ReportManager.RemoveVarNameInCollection | src/cplus_plugin/lib/reports/report_manager.py:82-94 | The pop loop raises exactly when stripping fails, and otherwise leaves the stripped pair of lists. |
| ReportManager.RemoveVariablesKeepsOrder | src/cplus_plugin/lib/reports/report_manager.py:58-79 | Removing the register's names from parallel lists keeps exactly the pairs whose name is not in the register, in their original order. |
| ReportManager.RegisterVariablesLayout | src/cplus_plugin/lib/reports/report_manager.py:38-56 | Registering on parallel lists leaves the other variables' pairs in their original order, followed by the register's initial (name, value) pairs in order. |
| ReportManager.StripPairsAppend | src/cplus_plugin/lib/reports/report_manager.py:91-94 | Stripping a concatenation of parallel lists is the concatenation of stripping each part. |
| ReportManager.RemoveVariablesDropsOwn | src/cplus_plugin/lib/reports/report_manager.py:71-79 | Stripping the register's names from kept pairs followed by register-only pairs leaves exactly the kept pairs. |
| ReportManager.RegisterVariablesIdempotent | src/cplus_plugin/lib/reports/report_manager.py:46-56 | When the initial values only name the register's own variables, registering twice gives the same lists as registering once. |
| ScenarioOutput.Join | src/cplus_plugin/api/base.py:184-191 | An absolute second part replaces the first. Otherwise the joined path ends with the second part. |
| ScenarioOutput.BasenameOfJoin | src/cplus_plugin/api/base.py:184-191 | The basename of a file name joined onto any directory is that file name. |
| ScenarioOutput.LastFinal | src/cplus_plugin/api/base.py:181-187 | The index of the last final output, or -1 exactly when none is final. |
| ScenarioOutput.FinalOutput | src/cplus_plugin/api/base.py:180-187 | The final output is the metadata of the last final output, with "OUTPUT" set to its path, or None when no output is final. |
| ScenarioOutput.PlannedPathsKeepFileNames | src/cplus_plugin/api/base.py:178-192 | Every planned path ends in its output's file name, both for a final output at the top of the directory and for one under its group. |
| ScenarioOutput.MissingIndexesSound | src/cplus_plugin/api/base.py:153-157 | The missing indexes are in range, ascend and name missing paths. The list is empty exactly when every path exists. |
| ScenarioOutput.MissingIndexesComplete | src/cplus_plugin/api/base.py:153-157 | Every missing path's index is listed. |
| ScenarioOutput.ValidateOutputPaths | src/cplus_plugin/api/base.py:145-157 | The check reports valid exactly when no path is missing, together with the missing indexes. |
| ScenarioOutput.Select | src/cplus_plugin/api/base.py:203-204 | The entries at the given indexes in order, or None (an IndexError) exactly when some index is out of range. |
| ScenarioOutput.DownloadLoop | src/cplus_plugin/api/base.py:195-204 | The retry loop as written makes at most one round per existence snapshot. Its first round requests every (url, path) pair, and it ends with everything present only after a round whose check found nothing missing. |
| ScenarioOutput.SecondRoundRequestsMissing | src/cplus_plugin/api/base.py:195-204 | As written, the first round requests every output and the second exactly the outputs found missing after the first. |
| ScenarioOutput.DownloadLoopEnds | src/cplus_plugin/api/base.py:195-204 | As written, every round but the last one run goes on. The loop ends cancelled exactly when the last round it ran was cancelled. It ends complete only after an uncancelled round that found nothing missing. |
| ScenarioOutput.LoopCompletes | src/cplus_plugin/api/base.py:195-204 | A loop over a non-empty list that ends complete ran no cancelled round, and its last round found every path. A cancelled first round ends the loop at once. |
| ScenarioOutput.DownloadLoopIntended | src/cplus_plugin/api/base.py:195-204 | In the intended loop, the first round requests the pending outputs. Each later round requests, from the full lists, exactly the outputs the previous check found missing, and no round can go out of range. |
| ScenarioOutput.IntendedLoopEndsComplete | src/cplus_plugin/api/base.py:195-204 | When the intended loop ends because nothing is missing, every planned path exists in the last round's snapshot. |
| ScenarioOutput.ThirdRoundSelectsWrongFile | src/cplus_plugin/api/base.py:202-204 | As written, with three outputs where p2 and p3 are missing after round one and only p2 after round two, the third round requests (u3, p3) instead of (u2, p2). |
| ScenarioOutput.WrongFileRun | src/cplus_plugin/api/base.py:195-204 | The same scenario, stated in terms of what each round finds missing. |
| ScenarioOutput.ThirdRoundIndexError | src/cplus_plugin/api/base.py:202-204 | As written, when only the last of three files is missing after round two, its index 2 is out of range for the two-entry retry list. |
| ScenarioOutput.LastByKeyLastWins | src/cplus_plugin/api/base.py:126 | In a dictionary built by assigning in order, a key that no later position repeats maps to its own value. |
| ScenarioOutput.DownloadDictLastWins | src/cplus_plugin/api/base.py:126 | The downloaded-file dictionary maps a basename to the path carrying it, when no later path repeats that basename. |
| ScenarioOutput.LocalPathwaysKeepDownloaded | src/cplus_plugin/api/base.py:81-91 | Every pathway whose file was downloaded is kept and pointed at the download, right after the downloaded pathways before it. |
| ScenarioOutput.LocalPathwaysOnlyDownloaded | src/cplus_plugin/api/base.py:81-91 | Only pathways whose file was downloaded are kept, each with `layer_uuid` and `carbon_uuids` removed. |
| ScenarioOutput.LocalPathwaysKeepAll | src/cplus_plugin/api/base.py:81-91 | When every pathway's file was downloaded, none is dropped. |
| ScenarioOutput.CreateActivity | src/cplus_plugin/api/base.py:72-97 | The activity gets the filtered pathways. Its own path is rewritten exactly when its file was downloaded, and its other fields are kept. |
| ScenarioOutput.ActivityFindsItsDownload | src/cplus_plugin/api/base.py:81-97 | An activity whose file is one of the planned outputs points at the local copy of that output. If file names repeat, it points at the last one. |
| ScenarioOutput.CreateScenario | src/cplus_plugin/api/base.py:99-143 | The scenario keeps the original scenario's identity: uuid, name, description, extent and server uuid. Each activity and weighted activity of the detail (default []) is rebuilt against the basename dictionary of the download paths, in order. The priority layer groups come from the detail, defaulting to []. |
| ScenarioOutput.ScenarioPointsAtDownloads | src/cplus_plugin/api/base.py:99-143 | In the rebuilt scenario, every activity and weighted activity whose file is one of the planned outputs points at that output's downloaded copy. |
| ScenarioOutput.FinalCheckRejects | src/cplus_plugin/api/base.py:206-207 | As written, the final check never rejects, whatever files exist. |
| ScenarioOutput.FetchScenarioOutput | src/cplus_plugin/api/base.py:159-211 | As written, a missing detail gives (None, None). A fetched result carries the final output and the scenario built from the planned paths. |
| ScenarioOutput.FetchOutcomeOfLoop | src/cplus_plugin/api/base.py:159-211 | As written, with a detail, the scenario is fetched exactly when the download loop ends complete. Nothing is returned exactly when the loop was cancelled. |
| ScenarioOutput.PlannedLoopCompletes | src/cplus_plugin/api/base.py:178-204 | A complete loop over the planned downloads ran only uncancelled rounds, and its last round found every output's path. A cancelled first round ends it. |
| ScenarioOutput.FetchFollowsDownloadRounds | src/cplus_plugin/api/base.py:159-211 | As written, a cancelled first round gives no result. A fetched scenario comes only after rounds none of which was cancelled, the last of which found every planned file present. |
| ScenarioOutput.FetchScenarioOutputIntended | src/cplus_plugin/api/base.py:159-211 | As intended, a missing detail gives (None, None), and no retry selection can fail. A result is fetched only when every planned path exists at the final check, and it carries the final output and the scenario built from the planned paths. |
| ScenarioOutput.FinalCheckNeverFires | src/cplus_plugin/api/base.py:206-207 | With one output that is downloaded and then gone by the final check, the fetch as written still builds the scenario, where the intended one gives up. |
| NpvTable.ValidateRow | src/cplus_plugin/gui/npv_manager_dialog.py:442-479 | No warning exactly when revenue and cost are both truthy. A warning names year row+1, and says "both" exactly when neither is truthy and "cost" exactly when the revenue is truthy. |
| NpvTable.WarningsCoverRows | src/cplus_plugin/gui/npv_manager_dialog.py:425-479 | Every incomplete row gets its warning, and every warning belongs to an incomplete row. |
| NpvTable.IsValid | src/cplus_plugin/gui/npv_manager_dialog.py:425-440 | Valid exactly when every row is complete. Every row is checked without stopping, so every incomplete row's warning is shown. |
| NpvTable.NpvOfUpdate | src/cplus_plugin/gui/npv_manager_dialog.py:388-397 | Replacing one row changes the NPV by the difference of the two rows' discounted values (empty counts as 0). |
| NpvTable.NpvOfEmptyCells | src/cplus_plugin/gui/npv_manager_dialog.py:388-397 | A table without discounted values has an NPV of 0. |
| NpvTable.ComputeNpv | src/cplus_plugin/gui/npv_manager_dialog.py:384-404 | In both dialogs (financial_pwl_dialog.py:305-325 for the PWL one), the stored NPV is the sum of the non-empty discounted values, and the text box shows it formatted. |
| NpvTable.UpdateDiscountedValue | src/cplus_plugin/gui/npv_manager_dialog.py:327-360 | For the manager, and for the PWL dialog at financial_pwl_dialog.py:256-282, only the given row's discounted value changes. The manager skips a row whose revenue and cost are both empty, and the PWL dialog never skips. A computed row gets the value for year row+1, with empty values as 0, and the NPV is recomputed. |
| NpvTable.UpdateDiscountedValueNpv | src/cplus_plugin/gui/npv_manager_dialog.py:327-360 | After a recomputation the NPV moves by exactly the change in the row's discounted value. |
| NpvTable.UpdateDiscountedValueIdempotent | src/cplus_plugin/gui/npv_manager_dialog.py:327-360 | In either dialog (financial_pwl_dialog.py:256-282 for the PWL one), recomputing a row twice gives what recomputing it once gives. |
| NpvTable.UpdateAllFromRefreshes | src/cplus_plugin/gui/npv_manager_dialog.py:362-372 | From a given row on, the loop leaves earlier rows alone and refreshes later ones. The NPV is recomputed when some row was refreshed, and the sheet is unchanged when none was. |
| NpvTable.UpdateAllRefreshes | src/cplus_plugin/gui/npv_manager_dialog.py:362-372 | In either dialog (financial_pwl_dialog.py:284-294 for the PWL one), only rows that already had a discounted value are recomputed, and revenue and cost are never touched. |
| NpvTable.ItemChanged | src/cplus_plugin/gui/npv_manager_dialog.py:310-325 | In either dialog (financial_pwl_dialog.py:242-254 for the PWL one), only edits in columns 1 and 2 change anything, and they change only their own row. |
| NpvTable.ItemChangedSettles | src/cplus_plugin/gui/financial_pwl_dialog.py:242-254 | Writing the discounted value (column 3) triggers no further change, and repeating the edit's recomputation changes nothing. |
| NpvTable.SyncedNpv | src/cplus_plugin/gui/npv_manager_dialog.py:611-633 | Years, discount, check state and yearly rates come from the dialog. The absolute NPV changes only when the NPV text parses as a number. The activity and normalised NPV are kept. |
| NpvTable.SyncActivityNpv | src/cplus_plugin/gui/npv_manager_dialog.py:600-633 | Nothing happens without a current activity. A missing mapping raises. Otherwise only the first mapping for the activity is updated. |
| NpvTable.SyncActivityNpvIntended | src/cplus_plugin/gui/npv_manager_dialog.py:600-633 | The same, except that the NPV is stored directly instead of being re-parsed from its formatted text. |
| NpvTable.GroupedNpvNotStored | src/cplus_plugin/gui/npv_manager_dialog.py:600-633 | As written, with a formatter that groups thousands (lines 400-404), an NPV of 1000 or more is not stored and the activity keeps its old absolute NPV. |
| NpvTable.IntendedSyncStoresNpv | src/cplus_plugin/gui/npv_manager_dialog.py:600-633 | Storing the NPV directly records the table's sum and yearly rates whatever the size of the NPV. Every other mapping is left alone. |
| NpvTable.ManagerItemChanged | src/cplus_plugin/gui/npv_manager_dialog.py:310-325 | Edits outside columns 1 and 2 change nothing. Revenue or cost edits recompute their row and then copy the table to the current activity. |
| NpvTable.WriteRatesFromRows | src/cplus_plugin/gui/npv_manager_dialog.py:587-598 | From a given entry on, a rate entry with at least three elements sets revenue and cost of its row. Shorter entries, entries past the table and discounted values are left alone. |
| NpvTable.WriteCell | src/cplus_plugin/gui/npv_manager_dialog.py:587-598 | One revenue or cost write of the load. An index past the table changes nothing. A write Qt does not signal, because it gives the value already stored, changes nothing at all. A write that emits `itemChanged` runs the slot of lines 310-325, which gives a row with a revenue or a cost its discounted value at the dialog's rate. Other rows are left alone, and a discounted value once set stays set. |
| NpvTable.LoadRatesFromRows | src/cplus_plugin/gui/npv_manager_dialog.py:587-596 | Over the loop, rows before the current entry stay as they were. Revenue and cost come from entries of at least three elements. A row with an emitting write and a revenue or a cost ends holding its discounted value. |
| NpvTable.LoadWritesRates | src/cplus_plugin/gui/npv_manager_dialog.py:587-596 | The loop with its `itemChanged` slots writes the same revenues and costs as the plain writes of `WriteRatesFromRows`. |
| NpvTable.SyncMirrors | src/cplus_plugin/gui/npv_manager_dialog.py:600-633 | A write-back for an activity the store holds succeeds. The store then holds, for that activity, the dialog's years, rate, check state and table, and no other mapping changes. |
| NpvTable.LoadRatesFromMirrors | src/cplus_plugin/gui/npv_manager_dialog.py:587-596 | Over the loop, nothing raises and only the activity's first mapping changes. After any emitting write, the store mirrors the dialog. |
| NpvTable.LoadRatesFromUnknown | src/cplus_plugin/gui/npv_manager_dialog.py:587-596 | For an activity the store does not hold, the loop leaves the store as it was. It raises exactly when some write emits, because `_update_current_activity_npv` dereferences `None` (lines 607-611). |
| NpvTable.LoadedParams | src/cplus_plugin/gui/npv_manager_dialog.py:568-633 | The years, discount and rates the load reads, through the reference to the activity's own parameters at line 575. Suppose `setChecked` at line 577 unchecks a checked group box, and the activity is the store's own mapping. Then lines 669-670 have written the previous dialog into it, so the values are the dialog's years, discount rate and one tuple per row. Otherwise they are the activity's own.
| NpvTable.LoadActivityNpv | src/cplus_plugin/gui/npv_manager_dialog.py:568-598 | Loading makes the activity current with its check state. The years and discount are those of `LoadedParams`. The table keeps the resized number of rows. |
| NpvTable.LoadActivityNpvComputes | src/cplus_plugin/gui/npv_manager_dialog.py:568-598 | After loading, every row with an emitting write and a revenue or a cost holds its discounted value at the loaded rate. The NPV is then the sum of the discounted values, and the text box shows it. |
| NpvTable.LoadActivityNpvWritesBack | src/cplus_plugin/gui/npv_manager_dialog.py:568-633 | After loading an activity the store holds, with an emitting write, nothing has raised and no other mapping has changed. The activity's mapping holds the loaded years and rate and the activity's check state. Row by row, it holds the table's revenues and costs. |
| NpvTable.LoadUnknownActivity | src/cplus_plugin/gui/npv_manager_dialog.py:568-633 | Loading an activity the store does not hold leaves the store unchanged. Something raises exactly when a write emits or the group box is unchecked (lines 577 and 669-670). |
| NpvTable.LoadAfterResetComputes | src/cplus_plugin/gui/npv_manager_dialog.py:541-598 | After `reset_npv_values` (lines 552-553) no row has a revenue, so every entry of the loaded rates that has at least three elements and fits the table is written with an emitting `setData`. Each such row with a revenue or a cost ends with its discounted value at the loaded rate. The reset also unchecks the group box (line 539), so the loaded parameters are the activity's own. |
| NpvTable.LoadActivityNpvRows | src/cplus_plugin/gui/npv_manager_dialog.py:587-598 | A loaded row takes revenue and cost from its entry of the loaded rates exactly when that entry has at least three elements. Otherwise it keeps the resized table's. |
| NpvTable.SyncThenLoad | src/cplus_plugin/gui/npv_manager_dialog.py:568-633 | Copy the table to the current activity, then load that activity into a table of the same length. The load restores the revenues, costs, years, discount rate and check state. The exception is a load that unchecks another dialog's checked group box. Then the write-back of lines 669-670 goes into the very mapping being loaded, so the load shows the other dialog's years, rate, revenues and costs. |

## Left out

- The Qt network transport is not modelled: `QgsNetworkAccessManager`, `QEventLoop` and reading the reply. Each call's outcome is an input reply.
- As written, no request reaches the network. `_set_headers` (request.py:80-85) unpacks each header key string and raises `ValueError` on "Authorization" and "Content-Type". This affects every get, post and put, the login included (see Findings). The rows for `ApiToken`, `Call`, `AuthorizedCall` and `Results` therefore describe the intended transport, with headers set and JSON decoded.
- A `Reply.Response` stands for a reply Qt delivers without a network error, which means an HTTP status below 400. Qt flags 4xx and 5xx replies in `reply.error()`, so `_handle_response` (request.py:101, 110-114) raises "Network error" for them. In the model those replies are the `NetworkError` input. So the "wrong status" paths of `ApiToken`, `Call`, `AuthorizedCallSucceedsIff` and `RejectedLoginNeverSends` are reached through the source only by a 1xx, 2xx or 3xx status. The contracts themselves allow any integer status.
- JSON decoding is not modelled either: the body is an opaque string map. The decoding of line 92 appears only as a finding.
- `time.sleep` and `datetime.now()` are a delay log and an integer clock parameter. No real time passes.
- The `fetch_scenario_status` factory is not modelled because it reads `urls.headers`, which `CplusApiUrl` never defines. The poller is modelled directly from its constructor (request.py:229-268).
- Where the auth config, settings and the plugin version come from is not modelled. They are inputs.
- The file downloads, the thread pool, `os.makedirs` and `os.path.exists` are I/O and concurrency. File existence is a set of paths given per retry round, and a download round is the list of pairs it requests.
- Floating point is modelled as `real`. `compute_discount_value`, `round(…, 2)`, `QgsBasicNumericFormat` and `float(text)` are function parameters, so no rounding error is modelled.
- `NpvFinancialModel.set_number_of_years` (npv_financial_model.py) is not part of this model. `LoadActivityNpv` takes the resized table as an input.
- Qt compares a written value with the stored one by type as well as value, so an `int` replacing an equal `float` still emits `itemChanged`. `Emits` compares values only, because the model has one number type.
- An exception raised inside a Qt slot is reported by the application's exception hook, and the code that emitted the signal carries on. `Loading.raised` records that one was raised and does not model the report.
- NpvTable.LoadActivityNpv: the signals emitted by `reset_npv_values` in the caller (lines 552-553) are not modelled. The table the caller leaves is the `resized` input, and its `rowsRemoved` recomputation is modelled only as a recomputed NPV when the table shrinks.
- NpvTable.Aliased: Python object identity between the loaded activity and the store's mapping is modelled as value equality with the store's first mapping for that identifier. A distinct but equal object would count as aliased. The only caller (lines 562-566) passes the store's own object.
- MetricsBuilder.NewTable: a table built with metric columns is not well formed, and the table lemmas assume a well-formed table. The metrics builder dialog that constructs the table is not part of this model, so which columns it passes is not modelled.
- The Qt UI is left out: delegates, widget geometry, message bars, the clipboard, icons, tool tips and display text.
- `output_fnames` in `__create_scenario` is computed but never used, so it is not modelled.
- The scenario detail's falsiness (base.py:173) is modelled as a missing detail (`None`). A present detail always counts as truthy.
- `cplus_options.py` and `utils.py` are not part of this model: settings persistence, logging, translation and file helpers.
- MetricsBuilder.ItemFromName: case-insensitive matching is modelled as ASCII case folding, not Qt's full Unicode comparison.
- ScenarioOutput.Join: only POSIX paths are modelled, not Windows drive letters or backslashes.
- MetricsBuilder.UpdateColumnProperties: the call's own return value (False when refused, None otherwise) is falsy either way and is not modelled.
- MetricsBuilder.MoveTableColumn: requires an index inside the grid. Qt's `takeColumn` on an index past the grid is not modelled.
- ApiRequest.Results: CPython's recursion limit is not modelled. Each poll recurses once (request.py:293 or 296), so with the default `max_limit` of 3600 a job pending for about 1000 polls raises `RecursionError`. The `except` at line 294 catches it, so the sleeps and requests past that depth differ from the model. Every statement about the poller holds only below that depth, which depends on the caller's stack.
- ApiRequest.ResultsFrame: the frame accounting assumes recursion with no depth limit. It holds only below CPython's recursion limit, as for `Results`.
- ApiRequest.TimeoutDoublesWait: the count of `2k` sleeps holds only when the limit is reached below CPython's recursion depth, so not for the default limit of 3600.
- ApiRequest.Results: each poll's status request reads `api_token` inside the `try`. A login that raises is handled like a request that raises, so the poll's reply stands for both.
- ApiRequest.Results: the `cancelled` flag is set by another thread. It is modelled as becoming true after a given number of status requests and staying true, so a flag that flips at any other moment is not modelled.
- NpvTable.SyncedNpv: `years` and `discount` are read from the spin boxes. They are modelled as the manager's own fields, kept equal to what loading wrote.

## Findings

| source | as written | input that shows it | evidently intended | confidence | as-written member | corrected member |
|---|---|---|---|---|---|---|
| src/cplus_plugin/api/request.py:204-219 | A successful PUT neither returns nor breaks, so the chunk is uploaded again and again. | Any PUT that succeeds (three successes are all consumed). | Return the part number and ETag of the first successful PUT. | not executed | ApiRequest.UploadAsWrittenResendsAfterSuccess | ApiRequest.IntendedUploadRecoversOnFifthPut |
| src/cplus_plugin/api/request.py:283-296 | A nested `results()` call made inside the `try` raises the timeout into the caller's `except`, which sleeps and polls again. | `max_limit=5` and a job that stays "Pending": eight sleeps for four requests. | The timeout propagates, with one sleep per request. | not executed | ApiRequest.PollLimitFiveTimesOutOnFifthAttempt | ApiRequest.IntendedTimeoutSleepsOncePerRequest |
| src/cplus_plugin/api/request.py:92 | `json.load` is given a `str`, raises, and the handler returns `{}`. | Any 200 login reply carrying `access_token`. | `json.loads` of the reply text. | not executed | ApiRequest.LoginNeverSucceedsAsWritten | ApiRequest.LoginSucceedsWithDecodedToken |
| src/cplus_plugin/api/base.py:202-204 | Indexes over the full path list are applied to the already-shortened retry lists. | Three outputs; round one leaves p2 and p3 missing, round two only p2: round three requests (u3, p3). | Select the retry pairs from the full lists. | not executed | ScenarioOutput.ThirdRoundSelectsWrongFile | ScenarioOutput.DownloadLoopIntended |
| src/cplus_plugin/api/base.py:206 | `not` of a two-element tuple is always False, so the final check never fires. | One output downloaded and then removed before the check. | Test the tuple's first element. | not executed | ScenarioOutput.FinalCheckNeverFires | ScenarioOutput.FetchScenarioOutputIntended |
| src/cplus_plugin/gui/metrics_builder_model.py:704-724 | The grid column moves but `_metric_columns` keeps its order, and RIGHT from index 0 moves the name column. | A two-column table moved right from index 1, then a new activity appended. | Reorder `_metric_columns` with the grid and refuse to move the name column. | not executed | MetricsBuilder.MoveTableColumnMisaligns | MetricsBuilder.MoveTableColumnIntendedPreservesAlignment |
| src/cplus_plugin/gui/npv_manager_dialog.py:400-404, 630-633 | The NPV is copied back by parsing the displayed text, which groups thousands, and `float` rejects the separator. | An NPV of 1234.56, shown as "1,234.56". | Store the computed NPV directly. | not executed | NpvTable.GroupedNpvNotStored | NpvTable.IntendedSyncStoresNpv |
| src/cplus_plugin/api/request.py:80-85 | `for key, value in headers` walks the dictionary's keys and unpacks each key string, which raises `ValueError` unless the key has two characters. | Any call: the default headers' first key is "Authorization"; the login's is "Content-Type". | Iterate `headers.items()`. | not executed | ApiRequest.HeadersNeverSetAsWritten | ApiRequest.IntendedHeadersCarryToken |
| src/cplus_plugin/gui/metrics_builder_model.py:300-306 | `column_removed` is declared `pyqtSignal(int)` (line 191) but is emitted with the removed item, which PyQt rejects with `TypeError` after the row is gone. | Removing any column that exists. | Emit the removed row number and return True. | not executed | MetricsBuilder.RemoveListColumnNeverReturnsTrue | MetricsBuilder.RemoveListColumn |
