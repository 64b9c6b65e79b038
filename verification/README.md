# K3: archiving Kafka messages into S3 and replaying them

K3 consumes Kafka messages, collects them per topic, puts them into S3 in batches and commits
them (`k3backup`); later it lists the bucket, reads the batches back into a map ordered by
timestamp and produces the messages again (`k3replay`). This project models that path in Dafny
4.11 and proves what it keeps.

| file | what it models |
|---|---|
| `Text.dfy` | C strings, decimal text, the order of `std::map<std::string, ...>` |
| `Wildcard.dfy` | the wildcard matcher `Utils::strcmp` |
| `TopicDiscovery.dfy` | which topics a pass of auto-discovery adds |
| `Bytes.dfy`, `Header.dfy`, `Checksum.dfy`, `Image.dfy` | 8-byte integers in memory, the packed 1024-byte header, the checksum, the image of a batch |
| `Batching.dfy`, `Runs.dfy`, `Lanes.dfy` | the batching and commit state machine, what every run of it keeps, and each topic of it by itself |
| `Consume.dfy` | the consumer object, method by method, proved against those functions |
| `MessageTime.dfy`, `TimeOrder.dfy` | parsing, printing and comparing the time in an object's name |
| `Keys.dfy` | object names: built at stash time, taken apart at replay |
| `Paging.dfy` | paging through the bucket listing and filtering by time |
| `Discovery.dfy` | decoding an object into the discovery map |
| `Replay.dfy`, `ReplayOrder.dfy` | which messages, payloads and keys come back, and in which order |
| `EndToEnd.dfy` | from a consumed message to the produced one |

How things are represented:

- The machine is little-endian and integers are two's complement. Where the source lets a
  signed 32-bit `int` overflow (the checksum, the product with the year) the model wraps
  around. `frac` is a real number, and the sums of `timestamp()` are exact.
- Payloads, message keys and images are bytes; names and texts are characters, narrowed to bytes
  where a topic is copied into a header.
- A state of the consumer is its two maps plus three histories: messages consumed, batches
  stashed, and one sequence of outside calls in which puts and commits appear in the order they
  are made. A put is an attempt: the program discards its result.
- Local time, the seed and the random number of a put, and the size of each listing page are
  supplied from outside and are arbitrary. Destroying a message wrapper is the commit of its
  message.
- The decoder takes the payload of every message from behind the first header of the buffer
  instead of from behind the header it is at. `Discovery.PayloadBase` keeps both readings apart:
  `BufferStart` is the program as written, `WalkingPointer` its evident intent. Everything said
  about headers, counts, keys of the map and order holds for both; payload recovery is proved
  for `WalkingPointer`, and `Replay.PayloadsAsWritten` says exactly what `BufferStart` recovers.

Properties one might expect and the code does not have, each with its exact condition:

- Recovery of payloads as written: `Replay.PayloadsAsWritten`, `Replay.BatchAsWrittenIff`,
  `Replay.SecondPayloadLost`.
- Recovery of messages that share timestamp and offset, as different partitions may:
  `Replay.AllRecoveredIff`, `Replay.MapExactly`.
- Replay in timestamp and offset order: `ReplayOrder.ChronologicalIff`, `ReplayOrder.OffsetOrder`,
  `ReplayOrder.TenBeforeNine`.
- Chronological comparison across months and across years: `TimeOrder.MonthsOrderedIff`,
  `TimeOrder.YearsOrderedIff`. One consequence is that a cut-off too short to hold a year selects
  nothing from 1975 to 2105 (`TimeOrder.ShortCutOff`).
- Reading the time of an object under another prefix than the topic and its slash:
  `Keys.PrefixIff`. With the bare topic the objects of January to September are all selected for
  every cut-off before October 2042 (`EndToEnd.BareTopicIgnoresTime`).
- Reading the time of an object of a year that is not four characters wide: `Keys.KeyRoundTrip`.
- The key of a message that is long or holds a NUL: `Header.HeaderTextExactIff`, `Replay.ProducedIff`.
- A byte counter that says what is pending: a timeout leaves it as it is, so that later batches
  are stashed early (`Lanes.EachTopicAlone`, `Runs.BatchBounds`, `Runs.FullBatches`).
- An archived copy of a batch without any payload byte: it is committed and never put
  (`Runs.PutsArePayloadBatches`, `Runs.PutIffPayload`, `Runs.EmptyMessageCommitted`).

The repository's own README promises that an empty topic list connects to all topics; the code
refuses to start without topics unless auto-discovery is on (src/common/consume.cpp:138-155). The
model follows the code: only auto-discovery adds topics.

## Model

| member | source | states |
|---|---|---|
| Wildcard.Strcmp | src/common/utils.cpp:6-41 | the three loops return true exactly when the recursive glob relation holds; a null pointer gives false; the loops end, and the backtrack pointer is never used while null |
| Wildcard.ForgetStar | src/common/utils.cpp:20-26 | once the stretch between two stars is placed at its earliest position, forgetting the first star loses no match |
| Wildcard.Backtrack | src/common/utils.cpp:31-34 | a mismatch lets the latest star swallow one more character without changing whether the pattern matches |
| Wildcard.EndOfText | src/common/utils.cpp:19-40 | when the text ends, what is left of the pattern decides alone |
| Wildcard.StrcmpString | src/common/utils.cpp:43-47 | for std::string both sides are cut at their first NUL |
| Wildcard.StarFreePattern | src/common/utils.cpp:11-17 | a pattern without a star matches exactly the texts of its length that agree with it wherever it holds no `?` |
| Wildcard.FirstStar | src/common/utils.cpp:19-36 | a pattern with a star matches exactly if the part in front of its first star matches the start of the text and the part behind it the text from some later position on |
| Wildcard.GlobReflexive | src/common/utils.cpp:6-41 | every text, wildcards included, matches itself |
| Wildcard.LiteralPattern | src/common/utils.cpp:6-41 | a pattern without wildcards matches itself only |
| Consume.Consume.TopicExcluded | src/common/consume.cpp:42-53 | true exactly when some exclusion pattern matches |
| Consume.Consume.TopicAlreadyInSubscriptions | src/common/consume.cpp:55-66 | true exactly when some subscription matches |
| Consume.Consume.AutoDiscoverTopics | src/common/consume.cpp:319-360 | the subscriptions become those of the discovery function; subscribe is called exactly if something was added; a failed request changes nothing |
| TopicDiscovery.AddsOnlyWanted | src/common/consume.cpp:329-342 | an added topic was listed, does not start with two underscores, matches no exclusion, and matches no subscription in front of it |
| TopicDiscovery.CoversListing | src/common/consume.cpp:329-342 | afterwards every listed topic starts with two underscores, or matches an exclusion or a subscription |
| TopicDiscovery.OneMoreListed | src/common/consume.cpp:329-342 | one more topic at the end of the listing is added, at the end, exactly if none of these three holds |
| TopicDiscovery.DiscoveryFixpoint | src/common/consume.cpp:329-342 | a second pass over the same metadata adds nothing |
| TopicDiscovery.StaysDuplicateFree | src/common/consume.cpp:336-337 | duplicate-free subscriptions stay so, whatever the names contain |
| Checksum.MessageChecksum | src/common/checksum.cpp:6-14 | the loop returns the signed 32-bit integer that is congruent to the byte sum modulo 2^32 |
| Checksum.SumConcat | src/common/checksum.cpp:9-13 | the byte sum is additive under concatenation |
| Checksum.SumOfByte | src/common/checksum.cpp:9-13 | a single byte adds its own value |
| Checksum.SumBounds | src/common/checksum.cpp:9-13 | the byte sum lies between 0 and 255 times the length |
| Checksum.NeverOverflowsUpTo | src/common/checksum.cpp:9-13 | up to 8421504 bytes the accumulator is exact at every step |
| Checksum.OverflowsBeyond | src/common/checksum.cpp:9-13 | for every greater length some payload overflows it |
| Bytes.Int64RoundTrip | src/include/messagewrapper.hpp:33-43 | an int64_t stored in memory reads back as itself |
| Bytes.Int64InMemory | src/include/messagewrapper.hpp:33-43 | the eight bytes, least significant first, are worth the integer, or the integer and 2^64 if it is negative |
| Header.SetHeader | src/include/messagewrapper.hpp:58-74 | zeroing and assigning in the program's order leaves exactly the laid-out header at the position, and nothing else of the buffer changes |
| Header.StoreWord | src/include/messagewrapper.hpp:61-67 | assigning one integer field replaces that field only |
| Header.HeaderRoundTrip | src/include/messagewrapper.hpp:46-75 | reading a header gives back every integer field and both text fields |
| Header.FieldText | src/include/messagewrapper.hpp:69-73 | a text field holds the text up to one byte less than its size and zeros behind it, and reads as that text up to its first NUL |
| Header.HeaderTextExactIff | src/include/messagewrapper.hpp:69-73 | the key read back is that of the first 127 bytes of the original, the topic of the first 839; each is the original exactly if that is NUL-free and no longer |
| Header.HeaderIntegers | src/include/messagewrapper.hpp:34-43 | the seven integers lie at bytes 0, 8, 16, 24, 32, 40 and 48 of a header of 1024 bytes, the version is 1 |
| Header.HeaderTextBytes | src/include/messagewrapper.hpp:69-73 | the first 127 bytes of the key lie at byte 56, the first 839 of the topic at byte 184, and zeros behind each |
| Image.MessagesSize | src/common/consume.cpp:158-170 | the size pass returns the total payload size |
| Image.WriteRecord | src/common/consume.cpp:280-291 | one turn of the loop appends exactly one record to the image |
| Image.WriteImage | src/common/consume.cpp:268-291 | the two passes agree: the first total_size bytes of the buffer are the image of the batch |
| Image.ImageSize | src/common/consume.cpp:272-273 | the image is one header per message plus the payloads |
| Image.ImageRecords | src/common/consume.cpp:270-291 | record k fills precisely the bytes from its prefix sum to the next one, with index n-1-k; the records cover the whole image |
| Batching.WholeSeconds | src/common/consume.cpp:294 | milliseconds become seconds rounded towards zero |
| Consume.Consume.PutImage | src/common/consume.cpp:274-305 | one put is attempted, with the image of the batch, its count, and a key carrying the last message's time |
| Consume.Consume.EraseAll | src/common/messagewrapper.cpp:14-19 | erasing the queue commits each message once, front to back |
| Consume.Consume.StashByTopic | src/common/consume.cpp:252-317 | the whole new state: put unless the payload is empty, then commits, then an empty queue; byte counters untouched |
| Consume.Consume.StashAllTopics | src/common/consume.cpp:243-250 | every topic is stashed, in map order |
| Consume.Consume.RunOnce | src/common/consume.cpp:199-241 | the new state is the step of the state machine, for a message, for a timeout, end of partition or error, and for no event; `Lanes.ArrivalRule` and `Lanes.NoticeBatches` say what a step does |
| Consume.Consume.RunAndDestroy | src/common/consume.cpp:31-40 | the consume loop followed by the destructor is the run followed by stashing everything |
| Lanes.ArrivalRule | src/common/consume.cpp:206-227 | in any state, a message that leaves the queue below the limit and the counter below the bundle size waits and nothing is stashed or called; otherwise the queue with it is stashed, and queue and counter start again |
| Lanes.NoticeBatches | src/common/consume.cpp:233-250 | a timeout, end of partition or error stashes exactly the topics with something pending, each with its whole queue, in the order of their names |
| Lanes.EachTopicAlone | src/common/consume.cpp:199-250 | in every run the queue, the byte counter and the batches of a topic are those of one queue and one counter run for that topic alone, with both thresholds and the counter a timeout leaves behind |
| Lanes.TopicsIndependent | src/common/consume.cpp:199-250 | they are the same in a run without the messages of other topics |
| Runs.Conservation | src/common/consume.cpp:199-250 | in every run, per topic, consumed messages are the stashed batches followed by the pending queue, in order; after the destructor nothing is pending |
| Runs.CommitsAreFlushed | src/common/consume.cpp:313-316 | per topic the commits are exactly the stashed messages, once each, in order |
| Runs.CommitsArePrefix | src/common/consume.cpp:313-316 | at every moment the commits of a topic are a prefix of what was consumed of it |
| Runs.CommitSafety | src/common/consume.cpp:228-231 | if partitions arrive in offset order, at every moment of every run, also inside a stash, a committed offset is below every consumed offset of the partition not yet committed |
| Runs.CommittedThenPending | src/common/consume.cpp:228-231 | per topic, what was consumed is what is committed followed by what is pending |
| Runs.PendingNotCommitted | src/common/consume.cpp:228-231 | a pending message is not committed |
| Runs.PendingSafety | src/common/consume.cpp:228-231 | no committed offset of a partition is at or past that of a pending message |
| Runs.ArchiveBeforeCommit | src/common/consume.cpp:252-317 | every committed message belongs to a batch whose whole image, with its count, was handed to put earlier, or whose payload is empty |
| Runs.PutsArePayloadBatches | src/common/consume.cpp:268-312 | the puts of a run are exactly those of the batches with a payload byte, one each, in order |
| Runs.PutIffPayload | src/common/consume.cpp:268-317 | the first call of a batch is the put of its image exactly if it has a payload byte; then come its commits |
| Runs.EmptyMessageCommitted | src/common/consume.cpp:268-269 | a run of one message without payload commits it and puts nothing |
| Runs.BatchBounds | src/common/consume.cpp:212-227 | in every reachable state pending bytes <= counter < bundle size and pending messages < limit; every batch has at most limit messages and less than the bundle size plus its last payload |
| Runs.NoticeFlushes | src/common/consume.cpp:233-238 | after a timeout, end of partition or error everything consumed has been stashed |
| Runs.FullBatches | src/common/consume.cpp:212-227 | while none of those intervenes counters are exact and every batch reaches the limit or the bundle size |
| MessageTime.MessageTime.FromText | src/common/messagetime.cpp:26-61 | the constructor's fields are those of the parse function, for a text of any length |
| MessageTime.MessageTime.Timestamp | src/common/messagetime.cpp:154-179 | the accumulation gives the seconds value, which `TimeOrder.YearTable` and `TimeOrder.YearsOrderedIff` describe in figures |
| MessageTime.MessageTime.IsGreater | src/common/messagetime.cpp:110-115 | operator > on the two values |
| MessageTime.ParsePrintIff | src/common/messagetime.cpp:140-152 | parse(to_string(t)) == t exactly for years -999..9999, other fields -9..99 and frac the value of sfrac |
| MessageTime.ParseIsPrintable | src/common/messagetime.cpp:26-61 | whatever the text, the parsed time is within those ranges |
| MessageTime.PrintParse | src/common/messagetime.cpp:26-61 | to_string(parse(s)) == s for a digit-and-dash stamp of a four-digit year with any suffix |
| MessageTime.FractionValue | src/common/messagetime.cpp:55-60 | n digits behind the point are worth their number over 10^n |
| MessageTime.AtoiReads | src/common/messagetime.cpp:33-53 | a field with any white space, sign and digits in front of any rest reads as that number, 0 without digits |
| MessageTime.AtofReads | src/common/messagetime.cpp:56-60 | the fraction text reads as the number its sign, digits, point and further digits denote, whatever follows except an exponent |
| MessageTime.LeapYears | src/common/messagetime.cpp:162-168 | the leap day is applied to years divisible by 400 only |
| TimeOrder.SameYearOrder | src/common/messagetime.cpp:154-179 | within a year > is the lexicographic order on (month * length + day, hour, minute, second, fraction) |
| TimeOrder.YearTable | src/common/messagetime.cpp:154-179 | in figures: within a year > compares 31, 56, 93, 120, 155, 180, 217, 248, 270, 310, 330 or 372 days for the month plus the day, then the clock |
| TimeOrder.NextMonth | src/common/messagetime.cpp:160-172 | a day compares later than one of the next month exactly if it is later in its month by more than 25, 37, 27, 35, 25, 37, 31, 22, 40, 20 or 42 days, or by as many and later on the clock |
| TimeOrder.SameMonthOrder | src/common/messagetime.cpp:154-179 | within a month > is the order of the calendar |
| TimeOrder.MonthsOrderedIff | src/common/messagetime.cpp:160-172 | two months of a year are kept in order exactly unless they are one of five neighbouring pairs |
| TimeOrder.YearsOrderedIff | src/common/messagetime.cpp:154-179 | of two times of different years, at most 135 apart, the later compares greater exactly if the 32-bit year product does not wrap between them and they are not in the overlap of a December with the next January |
| TimeOrder.NewYearInversion | src/common/messagetime.cpp:170-172 | the last day of a year compares later than the first of the next |
| TimeOrder.ShortCutOff | src/common/messagetime.cpp:30-31 | a cut-off of fewer than four characters is the start of 1970, and no time of 1975 to 2105 passes it |
| TimeOrder.CutOffPasses | src/common/messagetime.cpp:26-61 | a time passes a cut-off made of any prefix of its own text, from the year on, exactly unless it equals what the prefix parses to |
| Keys.FindAfter | k3replay/main.cpp:296 | the search for "-rand" stops at the end of the time text |
| Keys.FindFirst | k3replay/main.cpp:296 | the search finds the first occurrence, or the end of the text if there is none |
| Keys.CleanedUpTo | k3replay/main.cpp:292-298 | of any key clean-up leaves the text behind the prefix up to the first "-rand", or all of it |
| Keys.CleanedKey | k3replay/main.cpp:292-298 | cleaning a stash key of any topic and any local time leaves the stamp and the fraction |
| Keys.KeyRoundTrip | src/common/consume.cpp:292-303 | clean-up and parser give back year, month, day, hour, minute, second and fraction text of the key, for every topic, exactly if the text of the year is four characters wide |
| Keys.SameKeyIff | src/common/consume.cpp:300-303 | two keys are the same exactly if topic, second, seed and random number are, whatever the topics contain |
| Keys.ExampleKey | src/common/consume.cpp:293-303 | the format of a key by example |
| Keys.PrefixIff | k3replay/main.cpp:84-103 | of all prefixes that contain the topic, exactly the topic with its slash lets the time of a key be read |
| Keys.BareTopicPrefix | k3replay/main.cpp:84-103 | given the topic without its slash, every key parses as year 0 |
| Paging.S3.List | src/common/s3.cpp:180-221 | a page of the keys of the prefix behind the marker, not empty unless none is left, or a failure |
| Paging.FilterPage | k3replay/main.cpp:270-281 | a page extends the output by its selected keys and leaves its last key as marker |
| Paging.S3Discovery | k3replay/main.cpp:249-284 | the loop ends; the output grows by the selection of the whole listing of the prefix, or of a part from its start if a request failed |
| Paging.SelectedMember | k3replay/main.cpp:273-276 | a key is selected exactly if it is listed and passes the time filter |
| Paging.SelectedAscending | k3replay/main.cpp:270-281 | the selection keeps the listing's order, each key once |
| Discovery.WalkBuffer | k3replay/main.cpp:204-228 | the loop over the buffer is the recursive walk, on any buffer and count |
| Discovery.BatchDiscoveryByKey | k3replay/main.cpp:184-237 | reading one object: missing, too small, malformed, or walked |
| Discovery.BatchDiscovery | k3replay/main.cpp:239-247 | reading a list of objects into one map; what that is for any list say `Discovery.OnlyReadable`, `Discovery.FaultIff` and `Replay.ArchiveRead` |
| Discovery.PassedOver | k3replay/main.cpp:194-236 | a key whose object is missing or under 512 bytes makes no difference, wherever it stands in the list |
| Discovery.OnlyReadable | k3replay/main.cpp:194-247 | reading a list is reading the objects that are there and have at least 512 bytes |
| Discovery.FaultIff | k3replay/main.cpp:204-228 | a replay fails exactly if an object that is there is malformed by itself |
| Discovery.ObjectStart | k3replay/main.cpp:195-207 | of any object of at least 512 bytes the number of messages is one more than bytes 40 to 47, as an int holds it |
| Discovery.WalkOne | k3replay/main.cpp:208-227 | one turn on any bytes: skipped, entered without payload, entered with a payload of the narrowed length, or malformed; and how far the pointer moves |
| Discovery.WalkOn | k3replay/main.cpp:207 | a walk of several messages is one turn and then the walk of the others |
| Discovery.BatchRoundTrip | k3replay/main.cpp:204-228 | the first index gives the count; where the walk arrives for message k lie its header, field by field, and its payload; the last step ends at the total size |
| Discovery.WalkImage | k3replay/main.cpp:207-228 | on the image of a batch the walk as written visits exactly the records, inserts each header under its key, and stops at the total size |
| Discovery.ReadImage | k3replay/main.cpp:195-228 | the object put for a batch, with the doubled buffer, decodes to the insertion of its messages in order |
| Replay.BehindFirstHeader | k3replay/main.cpp:217-221 | behind the first header lie the first payload and the records of the other messages |
| Replay.PayloadsAsWritten | k3replay/main.cpp:217-221 | a payload read as written is right exactly if it is a prefix of the first payload, or the first payload followed by bytes the later records begin with |
| Replay.BatchAsWrittenIff | k3replay/main.cpp:217-221 | the decoder as written recovers all payloads of a batch exactly if each non-empty one meets that condition |
| Replay.SecondPayloadLost | k3replay/main.cpp:217-221 | of two different payloads of one length the second is never recovered as written |
| Replay.EventKeyInjective | k3replay/main.cpp:213 | the key of the map determines timestamp and offset |
| Replay.ArchiveRead | k3replay/main.cpp:239-247 | reading any list of keys builds the map of all messages of the objects that are there and large enough, in visiting order; missing ones do no harm |
| Replay.LastRecovered | k3replay/main.cpp:210-223 | for each (timestamp, offset) with non-zero timestamp the map holds the message visited last |
| Replay.ReplayKeys | k3replay/main.cpp:210-226 | the keys of the map are exactly the pairs of messages with non-zero timestamp |
| Replay.MapExactly | k3replay/main.cpp:210-226 | a key is in the map exactly if some message with a timestamp is the last visited of its pair and owns the entry |
| Replay.AllRecoveredIff | k3replay/main.cpp:210-226 | every archived message has its own entry exactly if all timestamps are non-zero and no two messages share timestamp and offset |
| Replay.ProducedIff | k3replay/main.cpp:161-180 | a message is produced exactly if its payload is not empty, with its payload, and with the first 127 bytes of its key up to the first NUL |
| ReplayOrder.SameWidthText | k3replay/main.cpp:48 | decimal texts of one width compare as their numbers |
| Text.LexLessIff | k3replay/main.cpp:48 | the order of the map: the first differing character decides, and a proper prefix comes first |
| ReplayOrder.TimestampOrder | k3replay/main.cpp:112-114 | the earlier of two timestamps is replayed first exactly if it is at most the leading digits of the later |
| ReplayOrder.OffsetOrder | k3replay/main.cpp:213 | the same for two offsets of one timestamp |
| ReplayOrder.TenBeforeNine | k3replay/main.cpp:213 | offset 10 comes before offset 9 of the same timestamp |
| ReplayOrder.ChronologicalIff | k3replay/main.cpp:112-114 | the iteration is non-decreasing in timestamp exactly if every pair of timestamps meets that condition |
| ReplayOrder.SameWidthChronological | k3replay/main.cpp:112-114 | it is so for positive timestamps of one decimal width |
| EndToEnd.RunContent | src/common/consume.cpp:252-317 | if puts succeed and sizes fit, every object a run leaves behind is the image of a batch |
| EndToEnd.BatchContent | src/common/consume.cpp:300-305 | with fresh keys each batch with payload is found under its own key |
| EndToEnd.ConsumedIsStored | src/common/consume.cpp:31-40 | with fresh keys, when a run has ended every consumed message is in a batch, and if it has a payload that batch is found under its key |
| EndToEnd.ConsumedIsReplayed | k3replay/main.cpp:103-114 | with fresh keys, fitting sizes and successful puts, in a bucket that may also hold readable objects of earlier runs, and whatever downloads fail: the selected objects are read without fault, and a message of the run with payload and non-zero timestamp, whose batch is selected and downloaded and whose timestamp and offset no later visited message shares, is produced with its payload (read at the walking pointer) |
| EndToEnd.Discover | k3replay/main.cpp:103-106 | listing and reading in a row give the map of the selected keys, if no list request failed |
| EndToEnd.CollisionIff | src/common/consume.cpp:293-303 | two batches of a run get the same key exactly if topic, second of the last message, seed and random number are the same |
| EndToEnd.ObjectSelected | k3replay/main.cpp:270-276 | with the topic and slash as prefix an object is selected exactly if the time read from its key passes operator > against the cut-off; that time is the local time of its last message exactly if the year is four characters wide |
| EndToEnd.SelectedInMonth | k3replay/main.cpp:270-276 | among the objects of the month of the cut-off those of a later moment are selected |
| EndToEnd.CutOffSelects | k3replay/main.cpp:271-275 | a cut-off typed as a prefix of an object's time selects it unless it is exactly that time |
| EndToEnd.BareTopicIgnoresTime | k3replay/main.cpp:271-275 | with the bare topic as prefix, objects of January to September are selected exactly for cut-offs before October 2042, whatever their time |

## Left out

- AWS SDK, librdkafka and jansson calls, credentials, configuration, logging and the `main` functions: foreign calls and wiring. A null S3 pointer, with which a batch is committed without a put, is part of that wiring.
- Results of puts and commits: a put is an attempt, commits do not fail, rebalances do not happen. `EndToEnd.StoreOf` is what a run leaves in the bucket if every put succeeds, and the keys of a run are assumed to be fresh. Objects in the bucket that K3 did not write are left out.
- The memory check, the auto-discovery interval and the wall clock of `Consume::run`: a run is an arbitrary sequence of events; the memory-limit restart is the end of a run.
- Sizes beyond memory: totals and the countdown index are unbounded integers in the writer; decoding is stated for batches of at most 2^31-1 messages of at most 2^31-1 bytes each, which is what the `int` variables of the decoder hold. Key lengths are assumed to fit an `int`.
- Discovery.ReadObject: what C++ leaves undefined on an object that no writer made (headers or payloads outside the buffer, negative counts or lengths) is one outcome, `Malformed`.
- MessageTime.Atof: plain decimal notation only; exponents, hexadecimal, infinities and NaN are not modelled. Rounding of doubles is not modelled.
- MessageTime.MonthLength: months outside 0..12, for which the C++ reads outside its table, count as length 0; no lemma depends on it.
- TimeOrder.YearsOrderedIff: years more than 135 apart, between which the year product may wrap more than once, are not compared.
- EndToEnd.BareTopicIgnoresTime: objects of October to December, for which the C++ reads outside its month table, and cut-offs of October 2042 are not decided.
- Keys.CleanupName: requires a key at least as long as the prefix; `substr` throws otherwise, and listed keys have the prefix.
- Local files between download and decoding beyond their presence and content, deletion of objects, hexdump output, `DiscoveryItem` copied as raw memory.
- `Produce`, `MemChecker`, `AwsGuard`, `IosGuard`, `KafkaConf`: plumbing.
