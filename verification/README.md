# tidy_inbox: grouping, ranking and search links, in Dafny

`tidy_inbox.py` reads the user's unread Gmail messages and groups them by
sender address. It keeps the groups that look like newsletters: the group
has more than one message, or one of its messages carries a
`List-Unsubscribe` header. It ranks the kept groups by message count or by
latest date. For every ranked sender it prints a Gmail filter query and a
search link.

This project models the pure part of that pipeline and proves properties
of it:

- `text.dfy`: ASCII lower-casing of header names and `' '.join`.
- `header_decoding.dfy`: `decode_email_header`. It is given twice: once as
  written, and once corrected (see Findings).
- `sender_address.dfy`: the sender key. This is the `parseaddr` address, or
  the first `<(.*?)>` capture, or the whole decoded `From` text.
- `extraction.dfy`: the per-message header loop and the skip of messages
  without a usable key.
- `grouping.dfy`: the per-sender fold of `group_emails` and the newsletter
  filter, with reference definitions of what each group must contain.
- `ranking.dfy`: `sort_groups`, a stable descending sort on the
  `(count, date)` or `(date, count)` key.
- `utf8.dfy`: UTF-8 encoding and decoding, which `quote_plus` and
  `unquote_plus` use.
- `search_url.dfy`:
  - `generate_filter_query`;
  - the full filter string;
  - `quote_plus`, with `unquote_plus` as its partner;
  - the link `https://mail.google.com/mail/u/0/#search/…`.
- `tidy_inbox.dfy`: the composition that `main` runs once the messages are
  fetched.

The header loop takes the functions it calls as one `Codecs` parameter:

- the whole `decode_email_header` (`Codecs.decode`);
- `parseaddr`;
- `dateutil`'s `parse(...).astimezone(utc)`, which yields `None` where
  parsing raises.

`Extraction.ProgramCodecs` builds `Codecs.decode` from the decoder as
written, which is what the program calls at tidy_inbox.py:177 and 185.
`Extraction.CorrectedCodecs` builds it from the corrected decoder. Both
take the library's `decode_header` and `bytes.decode` as parameters.

Dates are instants in microseconds since the Unix epoch. They are bounded
below by `datetime.min` in UTC, the value `sort_groups` puts in place of a
missing date.

Three facts about the code that the model keeps:

- The grouping key is the address as parsed; it is not lower-cased.
- A decode error from a `From` or `Subject` header is not caught. It ends
  the whole run, which the model returns as a `Failure`.
- `quote_plus` writes a space as `+`.

## Model

| member | source | states |
|---|---|---|
| Text.LowerMatchesIgnoringCase | tidy_inbox.py:174 | A lower-cased header name equals a lower-case literal exactly when the two match character by character, ignoring the case of letters (both directions). |
| Text.JoinSpacedShape | tidy_inbox.py:37 | `' '.join` of n ≥ 1 parts is as long as the parts together plus n − 1 separating spaces. |
| Text.JoinSpacedAppend | tidy_inbox.py:37 | Joining two non-empty runs of parts gives the join of the first run, one space, then the join of the second: the parts appear in order with one space between neighbours. |
| HeaderDecoding.CollectAsWrittenSpec | tidy_inbox.py:32-36 | The loop as written succeeds exactly when every part's step succeeds. It then collects, part by part in order, the decoded text of a charset-bearing part and the untouched payload of a charset-less one. |
| HeaderDecoding.AppendedNeverJoinError | tidy_inbox.py:32-36 | A loop step can fail only by decoding (an unknown charset, undecodable bytes, or a `str` paired with a charset). It never fails with the join's `TypeError`. |
| HeaderDecoding.AsWrittenJoinTypeErrorIff | tidy_inbox.py:32-37 | The as-written decoder fails with `TypeError` from `' '.join` exactly when every part's step succeeds and some charset-less part is a bytes payload. |
| HeaderDecoding.EncodedWordWithPlainTail | tidy_inbox.py:32-37 | For an encoded word followed by a charset-less bytes tail (what `decode_header` returns for `=?utf-8?q?…?= <addr>`), the as-written decoder raises `TypeError`. The corrected one returns the two texts joined by a space. |
| HeaderDecoding.PlainHeaderPassesThrough | tidy_inbox.py:28-37 | A header that comes back as one charset-less `str` part is returned unchanged by both decoders. |
| HeaderDecoding.PartTextsSpec | tidy_inbox.py:32-36 | The corrected loop decodes every part, in order. It fails exactly when some part fails, with the error of the first part that fails. |
| HeaderDecoding.DecodeEmailHeaderSpec | tidy_inbox.py:28-37 | The corrected decoder fails exactly when some part cannot be decoded, and never with the join error. On success it returns the space join of the parts' own texts. |
| HeaderDecoding.AsWrittenSucceedsIff | tidy_inbox.py:28-37 | The as-written decoder returns a text exactly when every loop step succeeds and no charset-less part is a bytes payload. The text is then the space join of the decoded texts of the parts, in order. |
| HeaderDecoding.AsWrittenAgreesWhenItSucceeds | tidy_inbox.py:28-37 | Whenever the as-written decoder returns a text, the corrected decoder returns the same text. |
| Extraction.ProgramCodecs | tidy_inbox.py:28-37 | With the decoder the program calls, a header value decodes exactly when every loop step succeeds and no charset-less part is bytes. It fails with the join's `TypeError` exactly when every step succeeds but some charset-less part is bytes. Whenever it decodes, the corrected decoder gives the same text. |
| Extraction.CorrectedCodecs | tidy_inbox.py:28-37 | With the corrected decoder, a header value fails exactly when one of its parts cannot be decoded, and never with the join's `TypeError`. Otherwise it decodes to the space join of its parts' own texts, in order. |
| Extraction.CodecsAgree | tidy_inbox.py:28-37 | For every header value the program's codecs decode, the corrected codecs return the same text. |
| SenderAddress.SearchAngle | tidy_inbox.py:159 | `re.search(r'<(.*?)>')`: the returned capture belongs to the leftmost match: `<`, then no `>` or newline, then `>`. None is returned exactly when no position matches. |
| SenderAddress.SenderKeySpec | tidy_inbox.py:178-183 | The key is the parsed address when it is non-empty. Otherwise it is the capture of the leftmost `<...>` match. When nothing matches, it is the whole decoded sender text. |
| SenderAddress.SenderKeyEmptyIff | tidy_inbox.py:178-183 | The key is empty exactly when `parseaddr` finds nothing and either the first `<...>` encloses nothing, or the sender text is empty and has no match. |
| SenderAddress.AddressListFallback | tidy_inbox.py:178-183 | `parseaddr` returns no address for a From text listing two addresses, `<a@b>, <c@d>`; the key is then the first capture, `a@b`. |
| Extraction.LastOfSpec | tidy_inbox.py:173-187 | The header scan finds the last header of a given kind (From, Subject or Date), so the last such header wins; it finds nothing exactly when no header has that kind. |
| Extraction.ExtractFailsIff | tidy_inbox.py:173-185 | Extraction of a message fails exactly when some From or Subject header (matched case-insensitively) has a value that does not decode. |
| Extraction.ExtractSender | tidy_inbox.py:167-183 | Without a From header the sender stays "Unknown Sender" and there is no key. Otherwise the sender is the decoded value of the last From header, and the key is that value's sender key. |
| Extraction.ExtractSubject | tidy_inbox.py:169-185 | The subject is the decoded value of the last Subject header, or "No Subject" when there is none. |
| Extraction.ExtractDate | tidy_inbox.py:170-187 | The date text is the raw, undecoded value of the last Date header, or absent when there is none. |
| Extraction.ExtractListUnsubscribe | tidy_inbox.py:171-189 | The unsubscribe flag is set exactly when some header is named List-Unsubscribe, in any case. |
| Extraction.SkippedIff | tidy_inbox.py:191-194 | A message is skipped exactly when it has no From header or the last From header's key is empty. |
| Extraction.ExtractAllSpec | tidy_inbox.py:165-194 | Extracting all messages succeeds exactly when every message's headers extract, and then yields one record per message, in order, holding that message's id and its extracted fields. |
| Grouping.SummarizeCounts | tidy_inbox.py:196-199 | A group built from n messages has count n and exactly their ids, in order. Its unsubscribe flag is set exactly when one of the messages had the header. |
| Grouping.SummarizeLatest | tidy_inbox.py:201-211 | The latest date is unset exactly when no member's date parses. Otherwise it is the maximum parsed date. The subject and display sender come from the first member that carries that maximum date. |
| Grouping.UndatedMessageKeepsLatest | tidy_inbox.py:196-211 | A message whose date is absent or does not parse adds one to the count. It leaves the latest date, subject and display sender unchanged. |
| Grouping.AccumulateSenders | tidy_inbox.py:196 | The fold creates one entry per distinct key, in order of each key's first occurrence (the insertion order of the `defaultdict`). |
| Grouping.AccumulateGroups | tidy_inbox.py:196-211 | Each entry's group equals the group built from exactly the messages that carry its key. |
| Grouping.AccumulateTotal | tidy_inbox.py:196-197 | The counts of all groups add up to the number of messages that were not skipped. |
| Grouping.RetainMembership | tidy_inbox.py:218-221 | The filter keeps, unchanged, exactly the entries whose group has the unsubscribe flag or more than one message. |
| Grouping.RetainAppend | tidy_inbox.py:218-221 | The filter keeps relative order: filtering a concatenation gives the concatenation of the filtered parts. |
| Grouping.RetainSenders | tidy_inbox.py:218-221 | Filtering keeps the senders distinct. |
| Grouping.GroupEmailsSpec | tidy_inbox.py:157-223 | `group_emails` returns distinct senders. Every returned entry holds a key of some kept message and the summary of exactly that key's messages, and it passes the filter. Every key whose summary passes the filter is returned. |
| Grouping.GroupEmailsGroups | tidy_inbox.py:196-221 | Every returned group has a count equal to its number of ids, at least one. Its latest date, subject and display sender are set together. No returned group is a one-message group without the unsubscribe flag. |
| Grouping.EmptyInputNoGroups | tidy_inbox.py:157-223 | No messages give no groups. |
| Ranking.InsertSorted | tidy_inbox.py:228-233 | Inserting into a descending list adds exactly the new entry and keeps the list descending. |
| Ranking.SortBySorted | tidy_inbox.py:226-238 | The sort returns a permutation of its input in descending order of the chosen key tuple. |
| Ranking.SortByStable | tidy_inbox.py:226-238 | The sort is stable: for every key value, the entries with that key keep their input order. |
| Ranking.PermutationKeepsSendersDistinct | tidy_inbox.py:226-238 | Reordering the entries, as the sort does, keeps their senders distinct. |
| Ranking.InvalidCriteriaSortsByCount | tidy_inbox.py:234-236 | Any criteria other than "count" and "date" sorts exactly as "count". |
| Ranking.UndatedRanksLowest | tidy_inbox.py:228-233 | An undated group counts as dated at `datetime.min`. It never ranks above a group that agrees with it on the count. |
| Ranking.WorkedExampleByCount | tidy_inbox.py:228-230 | Take A (5 messages, 2024-01-01), B (5, 2024-02-01) and C (3, 2024-03-01). By count they rank B, A, C: the date breaks the tie. |
| Ranking.WorkedExampleByDate | tidy_inbox.py:231-233 | The same senders by date rank C, B, A. |
| Utf8.DecodeEncode | tidy_inbox.py:281 | Decoding the UTF-8 encoding of any string gives the string back. |
| Utf8.EncodeInjective | tidy_inbox.py:281 | Two strings have the same UTF-8 encoding only if they are equal. |
| Utf8.EncodeAscii | tidy_inbox.py:281 | ASCII text encodes to one byte per character, each byte the character's code. |
| SearchUrl.FilterQueryNamesSender | tidy_inbox.py:241-243 | The filter query `from:(<sender>)` reads back to exactly its sender. |
| SearchUrl.FilterQueryInjective | tidy_inbox.py:241-243 | Two senders share a filter query only if they are the same sender. |
| SearchUrl.QuotePlusSafe | tidy_inbox.py:281 | The `quote_plus` result contains only ASCII letters, digits, `_.-~`, `+` and `%`. It has no space, `#`, `/`, `:` or parenthesis. |
| SearchUrl.QuotePlusWellEncoded | tidy_inbox.py:281 | The `quote_plus` result is a run of unreserved characters, `+` signs and `%XX` escapes: every `%` is followed by two upper-case hex digits. |
| SearchUrl.PercentDecodeQuoteBytes | tidy_inbox.py:281 | Percent-decoding, with `+` read as a space, undoes the byte escaping of `quote_plus` exactly. |
| SearchUrl.UnquoteQuotePlus | tidy_inbox.py:281 | `unquote_plus(quote_plus(s)) == s` for every string. |
| SearchUrl.QuotePlusInjective | tidy_inbox.py:281 | Distinct strings get distinct `quote_plus` encodings. |
| SearchUrl.SearchLinkDecodes | tidy_inbox.py:279-282 | The search link is the fixed prefix followed by a fragment that decodes to `"<query> from:(<sender>)"`. The sender can be read back from that fragment. |
| SearchUrl.SearchLinkInjective | tidy_inbox.py:279-282 | Under one query, different senders get different links. |
| TidyInbox.Present | tidy_inbox.py:278-282 | Each presented entry keeps its sender and group. Its filter query names the sender, and its full filter is the query, a space and the filter query. Its link is the prefix followed by a well-formed percent-encoded fragment, made only of URL-safe characters, that decodes to that full filter. |
| TidyInbox.RunFailsIff | tidy_inbox.py:267-272 | The run fails exactly when grouping fails, that is, when a header cannot be decoded. |
| TidyInbox.RunSpec | tidy_inbox.py:267-282 | A successful run presents every retained group exactly once, with distinct senders, in descending order of the chosen key; groups with equal keys keep their grouping order. Each entry's full filter string is the query, a space and `from:(<sender>)`. Its link is the search prefix followed by the `quote_plus` encoding of that string, which is well formed and decodes back to it. |
| TidyInbox.RunEmpty | tidy_inbox.py:262-270 | With no messages, nothing is presented. |

## Left out

- Authentication, token storage and the paginated fetch (`authenticate_gmail`, `fetch_unread_emails`) are network I/O. The model starts from the fetched messages.
- The rich console output, the progress bars and the warning lines are display only. The one exception is the invalid-criteria branch, whose choice is modelled by `Ranking.WarnsInvalid`.
- Argument parsing and the `--num-results` slice are out: the model presents every ranked group, and `main` shows a prefix of that list. The `strftime` of the displayed date is also out.
- `decode_header`, `bytes.decode`, `parseaddr` and `dateutil`'s parser are library code, so they are parameters. An unparsable date is a `None` from the date parser, matching the `except` at tidy_inbox.py:210-211.
- `Extraction.Header`: header names and values are always strings. The `AttributeError` of `header.get('name').lower()` on a missing name (tidy_inbox.py:174) and the error `decode_header(None)` raises on a missing value (tidy_inbox.py:177 and 185) are not modelled.
- `Extraction.ProgramCodecs`: `decode_header` is a total function returning parts. The `HeaderParseError` the library raises by itself on a malformed encoded word (a bad base64 payload such as `=?utf-8?b?A?=`) is not a `DecodeError` case, so the model's decoder never fails that way. In the program that error is not caught at tidy_inbox.py:177 or 185 and would end the run.
- `Extraction.ExtractAllSpec`: a message id is always a string. `msg.get('id')` returning `None` is not modelled.
- Header names are lower-cased on ASCII only. The reason is stated in `Text.LowerChar`.
- `SearchUrl.UnquotePlus` decodes UTF-8 strictly and returns `None` on bytes that are not UTF-8. Python's `unquote_plus` substitutes U+FFFD instead. It only serves as the decoding partner of `quote_plus`.
- Python strings can hold lone surrogates, which `quote_plus` would reject. A Dafny `char` is a Unicode scalar value, so that case cannot arise in the model.

## Findings

| source | as written | input that shows it | evidently intended | confidence | as-written member | corrected member |
|---|---|---|---|---|---|---|
| tidy_inbox.py:32-37 | A part without a charset is appended as-is, and the parts are joined with `' '.join`. When a header holds an encoded word, `decode_header` returns every part as `bytes`, including the charset-less plain stretches. The join then raises `TypeError`, which nothing catches, so the run ends. | A From header `=?utf-8?q?Caf=C3=A9?= <news@shop.example>`: its parts are (b'Caf\xc3\xa9', 'utf-8') and (b' <news@shop.example>', None). | Decode the charset-less bytes as US-ASCII and join the texts, so that the header gives a string instead of an exception. Here that string is `Café` and ` <news@shop.example>` joined by a space. | not executed | HeaderDecoding.EncodedWordWithPlainTail | HeaderDecoding.DecodeEmailHeaderSpec |
