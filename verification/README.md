# A verified model of testcontainers-cpp's algorithms and protocols

testcontainers-cpp is a Docker client. Most of it is plumbing over HTTP and JSON; inside it
are matchers, stream decoders, encoders and connection protocols whose correctness rests on
an argument that no single function shows. This project models those in Dafny and proves the
arguments for all inputs, all chunkings and all runs. `dafny verify dfyconfig.toml` checks it.

Code that changes state step by step is a class or a method with a loop, as in the source; it
is proved against a specification function, and lemmas say what that function means. Whatever
the code cannot choose — sockets, libssh2, the event loop, the daemon, the clock — is an
arbitrary script of answers, so each theorem about a run holds whatever the outside does.

| file | what it models |
|---|---|
| `GlobSemantics`, `GlobLaws`, `DockerIgnore`, `DockerIgnoreParse` | `.dockerignore` globs, `**`, parents, last match wins, and the file format |
| `Transport`, `DuplexExchange`, `StreamRead` | the exec exchange: sequential, interleaved, and their callers |
| `LogDemux`, `OccurrenceCounting`, `BuildStream` | the streaming decoders that must not depend on how input is cut |
| `SshTunnel` | forwarded connections with bounded buffers, half-close, failure and freeing |
| `Containers`, `HandleLifetimes`, `HandlePrograms` | start with retries, the move-only handle, and programs over many handles |
| `DockerSession` | the keep-alive session and its one retry |
| `WindowsArgv`, `ShellQuote`, `Base64`, `ConnectionStrings` | encoders against an independent reader |
| `CivilDate`, `Rfc3339` | timestamps and the calendar |
| `Bytes`, `Text`, `Wrappers` | concatenation, splitting and joining, and optional values, shared by the others |

## What the proofs found

- `parse_rfc3339` calls itself a strict parse and is not. Its fields go through
  `std::from_chars`, which takes a minus sign: "-0" is a zero field, so `1970-01-01T-0:00:00Z`
  parses to the epoch. And a day is only checked against 31: `2023-02-31T00:00:00Z` parses as
  3 March. These are the only two ways: a text spells a timestamp exactly when it is accepted,
  has no minus sign in front of a field, and its day exists (`Rfc3339.SpelledExactly`).
- A named pipe's peer half-closes with an empty successful read. The interleaved exchange takes
  one for end-of-file itself; a blocking pipe read reports it as end-of-file before the
  sequential loop sees it. With that mapping the two agree on every read script
  (`Transport.MappedReadsAgree`). A transport without it, which the base class allows, is read
  on past an empty read by the sequential loop, and the two agree on exactly the scripts where
  that makes no difference (`Transport.ReadingsAgree`; `Transport.EmptyReadTruncates` is one
  where it does). A cancelled read is a timeout to the interleaved exchange alone.
- A connection string with a password and no user renders like one with an empty user; this
  and the brackets of an IPv6 host are all that rendering loses (`ConnectionStrings.RendersEqual`).
- A quoted argument read as a program name, which has no escapes, comes back exactly when it
  holds no quote and does not end in a backslash (`WindowsArgv.ProgramRoundTrip`).
- The slash stripping in `parse_dockerignore` never changes the components of a pattern
  (`DockerIgnoreParse.StripSlashes`).
- A tunnelled connection can end normally without its channel's end-of-file having gone out
  (`SshTunnel.DoneWithoutChannelEof`). It has gone out exactly when the session answered the
  end-of-file call of the last pass, or of an earlier one, with success (`SshTunnel.Conn.Pump`).
- A container has one owner at every moment of a run exactly when no step adopts it while a
  handle owns it (`HandleLifetimes.SoleThroughoutExactly`). Of two owners each asks for the
  removal exactly if it removes on drop (`HandleLifetimes.BothOwnersDestroyed`). What can be
  requested in all is fixed by a law of conservation (`HandleLifetimes.EveryContainerAccounted`),
  so a container that nobody adopts is removed at most once.

## Model

| member | source | states |
|---|---|---|
| GlobSemantics.TokenizeRender | src/docker/DockerIgnore.cpp:57-127 | Every token list a pattern can spell is read back from its escaped spelling: classes with ranges and escapes, a first `]` as a member, an unterminated class that swallows the rest |
| GlobSemantics.TokenizeSpellable | src/docker/DockerIgnore.cpp:57-127 | Every pattern reads as such a list, so tokens and patterns describe the same globs |
| GlobSemantics.SegmentConsumes | src/docker/DockerIgnore.cpp:131-138 | A star-free run of tokens consumes exactly its own length; the reason the earliest match of a segment is enough |
| GlobLaws.PlainPattern | src/docker/DockerIgnore.cpp:110-127 | A pattern without `*`, `?`, `[` and `\` matches itself and nothing else |
| GlobLaws.PlainCharacter | src/docker/DockerIgnore.cpp:110-127 | A bare ordinary character in front of any pattern matches that character |
| GlobLaws.EscapedCharacter | src/docker/DockerIgnore.cpp:112-119 | So does any character behind a backslash, the special ones included |
| GlobLaws.TrailingBackslash | src/docker/DockerIgnore.cpp:112-127 | A backslash at the very end matches a backslash |
| GlobLaws.QuestionMark | src/docker/DockerIgnore.cpp:63-67 | `?` matches exactly one character, any one |
| GlobLaws.Asterisk | src/docker/DockerIgnore.cpp:58-62 | `*` matches any run of characters, also none |
| GlobLaws.ClassMatches | src/docker/DockerIgnore.cpp:68-105 | A class, with every member bare or escaped, single or a range, matches exactly one character that some member includes |
| GlobLaws.ListMatches | src/docker/DockerIgnore.cpp:68-105 | `[abc]` matches exactly the listed characters |
| GlobLaws.SpanMatches | src/docker/DockerIgnore.cpp:88-98 | `[a-z]` matches exactly the characters between the ends, both included |
| GlobLaws.OddMembers | src/docker/DockerIgnore.cpp:69-95 | `-` before the closing bracket, a first `]` and `^` are ordinary members |
| GlobLaws.UnclosedMatchesNothing | src/docker/DockerIgnore.cpp:106-109 | A class that is never closed matches nothing |
| DockerIgnore.ReadMember | src/docker/DockerIgnore.cpp:83-99 | Reads one class member or range, escapes at either end, and where it ends |
| DockerIgnore.TestClass | src/docker/DockerIgnore.cpp:73-100 | Whether the class closes, where, and whether the character is one of its members |
| DockerIgnore.TestToken | src/docker/DockerIgnore.cpp:57-130 | Accepts the character exactly when the token at `p` does, and then moves past that token |
| DockerIgnore.RetriesSubsumed | src/docker/DockerIgnore.cpp:58-61 | Forgetting all but the latest star is sound: whatever a later start of an earlier star reaches, the new star reaches too |
| DockerIgnore.MatchComponent | src/docker/DockerIgnore.cpp:47-145 | The loop that remembers one star terminates and returns true exactly when the name matches the declarative semantics of the pattern |
| DockerIgnore.NoRetryAtEnd | src/docker/DockerIgnore.cpp:140-144 | With the name used up, the pattern matches exactly when only stars are left; no retry could help |
| DockerIgnore.MatchFrom | src/docker/DockerIgnore.cpp:150-167 | The recursion decides the path semantics, `**` standing for any run of components |
| DockerIgnore.MatchesOrParent | src/docker/DockerIgnore.cpp:172-179 | True exactly when the pattern matches the path or one of its parent directories |
| DockerIgnore.PathMeaning | src/docker/DockerIgnore.cpp:150-167 | A component `**` spans any run of path components, any other one exactly the component its glob matches, and the empty pattern the empty path |
| DockerIgnore.TrailingDoubleStar | src/docker/DockerIgnore.cpp:155-161 | A pattern with `**` appended matches exactly the paths of which the pattern matches some prefix |
| DockerIgnore.ParentMatchIsTrailingDoubleStar | src/docker/DockerIgnore.cpp:172-179 | Parent matching equals matching with `**` appended, for every non-empty pattern and path |
| DockerIgnore.HitCarriesDown | src/docker/DockerIgnore.cpp:169-179 | A pattern that hits a directory hits everything below it |
| DockerIgnore.LastHitMeaning | src/docker/DockerIgnore.cpp:227-235 | When no later pattern matches the path or a parent, one that does decides by its polarity; with no match nothing is excluded |
| DockerIgnore.Excludes | src/docker/DockerIgnore.cpp:227-235 | The polarity of the last pattern that hits decides |
| DockerIgnore.ExcludedDirectoryCarriesDown | src/docker/DockerIgnore.cpp:221-236 | What lies below an excluded directory is excluded unless a `!` pattern reaches further down than the directory |
| DockerIgnoreParse.SplitComponents | src/docker/DockerIgnore.cpp:25-39 | The pieces between slashes, without the empty and "." ones |
| DockerIgnoreParse.ComponentsMeaning | src/docker/DockerIgnore.cpp:25-39 | A slash anywhere separates components; a piece without one is a component unless it is empty or "." |
| DockerIgnoreParse.ComponentsRoundTrip | src/docker/DockerIgnore.cpp:25-39 | Components are clean, and clean components survive joining and re-splitting |
| DockerIgnoreParse.Trim | src/docker/DockerIgnore.cpp:13-21 | What is left is the text between the surrounding blanks, none at either end |
| DockerIgnoreParse.TrimMeaning | src/docker/DockerIgnore.cpp:13-21 | Exactly spaces, tabs and carriage returns go, from both ends |
| DockerIgnoreParse.LineMeaning | src/docker/DockerIgnore.cpp:191-216 | A blank line and one that starts with `#` give nothing, one that starts with `!` a negated pattern, any other one a pattern, of the components of what is left |
| DockerIgnoreParse.CommentsIgnored | src/docker/DockerIgnore.cpp:191-193 | A line whose first character that is no blank is `#` contributes nothing, wherever it stands |
| DockerIgnoreParse.LinesMeaning | src/docker/DockerIgnore.cpp:186-217 | The patterns are those of the lines, in order |
| DockerIgnoreParse.StripSlashes | src/docker/DockerIgnore.cpp:202-212 | Removes surrounding slashes and leading "./" without changing the components |
| DockerIgnoreParse.ParseDockerIgnore | src/docker/DockerIgnore.cpp:183-219 | Each line contributes its pattern or nothing, in order |
| DockerIgnoreParse.FinalNewline | src/docker/DockerIgnore.cpp:186-189 | A final newline, or its absence, makes no difference |
| DockerIgnoreParse.ParseRender | src/docker/DockerIgnore.cpp:183-219 | Printing patterns one per line and parsing gives the list back |
| DockerIgnoreParse.DockerIgnoreExcludes | src/docker/DockerIgnore.cpp:221-236 | A path given as text is excluded exactly when the last pattern that hits it is no `!` pattern; the empty path never is |
| Transport.WriteOutMeaning | src/docker/Transport.hpp:68-78 | Write by write: what it took is added, its error or an empty success ends the writing, and so does the last byte |
| Transport.WriteAll | src/docker/Transport.hpp:68-78 | What the writes took, put together, is the front of the data: all of it, or less with an error, an empty successful write being a broken pipe; how much, and which error, is decided by the write results |
| Transport.SequentialExchange | src/docker/Transport.hpp:99-128 | What the peer got is decided by the writes alone, what was delivered by the reads begun in time alone, and the code by why reading ended; end-of-input goes out once, after all input |
| Transport.ReadOutSnoc | src/docker/DuplexExchange.hpp:76-103 | Read by read: data is delivered first, then a refusal, the read's own error, or for the interleaved pump an empty success ends the reading |
| Transport.ReadOutExplained | src/docker/Transport.hpp:110-127 | What is delivered is what the reads brought up to the one that ended it, and the code is that read's |
| Transport.ReadOutAppend | src/docker/Transport.hpp:110-127 | Once reading has ended, further reads change nothing |
| Transport.RefusedOrAccepted | src/docker/Transport.hpp:110-127 | Reading ends without an error exactly on a refusal of the last chunk |
| Transport.AcceptedBefore | src/docker/Transport.hpp:110-127 | Every chunk but the last was accepted: nothing is delivered after a refusal |
| Transport.MappedReadsAgree | src/docker/Transport.cpp:505-521 | Completions seen raw by the interleaved pump, and through blocking reads that report a half-close as end-of-file by the sequential loop, give the same chunks and code, for every script |
| Transport.ReadingsAgree | src/docker/Transport.hpp:110-127 | Over a transport that does not map empty reads, the two give the same chunks and code exactly when no empty successful read is reached that matters |
| Transport.EmptyReadTruncates | src/docker/Transport.hpp:110-127 | A concrete script, of such a transport, on which they differ |
| DuplexExchange.Pump.OnRead | src/docker/DuplexExchange.hpp:76-103 | The reads seen so far lead to exactly the chunks delivered and the end recorded; a read is in flight unless reading is over; after stopping nothing is delivered or started |
| DuplexExchange.Pump.OnWrite | src/docker/DuplexExchange.hpp:109-130 | The peer takes the front of what the write in flight offered, and what it took in all is exactly `input[..sent]`: the next write starts where the last one stopped; a write error cancels the end-of-input signal |
| DuplexExchange.Pump.TakeTurn | src/docker/DuplexExchange.hpp:141-164 | One turn signals end-of-input exactly when it is owed, gives up exactly when its budget is spent (a turn without a handler can mean nothing else, since a read is in flight), and otherwise takes in one handler |
| DuplexExchange.Pump.Drain | src/docker/DuplexExchange.hpp:166-175 | After cancelling, every operation in flight completes once; none is started, nothing is delivered or signalled, and the outcome stands |
| DuplexExchange.ReadsOfSnoc | src/docker/DuplexExchange.hpp:76-78 | The reads are those that completed, in order |
| DuplexExchange.SendOutMeaning | src/docker/DuplexExchange.hpp:109-130 | Write by write: at most 64 KiB each and never beyond the input, and the first error or the last byte ends the writing |
| DuplexExchange.WaitsOnceSent | src/docker/DuplexExchange.hpp:43-49 | Once the input is done with, an exchange without a deadline never gives up: it ends only when reading does |
| DuplexExchange.BudgetsBound | src/docker/DuplexExchange.hpp:145-163 | No handler runs from the first turn on that begins past the deadline, or in which nothing happens until the deadline or for the idle bound while input is unsent |
| DuplexExchange.GivesUpWhenSpent | src/docker/DuplexExchange.hpp:145-163 | A run that gives up does so at such a turn |
| DuplexExchange.StopsOnce | src/docker/DuplexExchange.hpp:141-164 | Exactly one number of turns is where the loop stops: reading is over, the next turn gives up, or the script ends, and nothing stopped it before |
| DuplexExchange.Exchange | src/docker/DuplexExchange.hpp:50-185 | For every run: delivered chunks follow the reads alone and the code is the reading's own end, none after a refusal and a timeout for an expiry or a cancelled read; bytes sent follow the writes alone; an expiry is reported however the drain completes; and end-of-input is signalled at most once, only with all input sent, and exactly when a turn began with that |
| DuplexExchange.AgreesWithSequential | src/docker/DuplexExchange.hpp:177-184 | For every sequence of read completions, half-closes included, and every interleaving of write completions: when neither runs out of time, the chunks equal those of the sequential fallback and so does the code, a cancelled read being a timeout here |
| LogDemux.DecodeAppend | src/docker/LogDemux.cpp:22-67 | Decoding may stop after any byte and resume with the undecoded rest |
| LogDemux.DecodeEncode | src/docker/LogDemux.hpp:8-15 | Decoding an encoded frame list returns it, whatever incomplete frame follows |
| LogDemux.FrameDecoded | src/docker/LogDemux.cpp:7-57 | Byte by byte: 0 is stdin, 2 stderr and anything else stdout, three bytes are ignored, and four give the payload's length, most significant first |
| LogDemux.PartialUndecoded | src/docker/LogDemux.cpp:30-47 | A partial header or payload is no frame |
| LogDemux.LogDemuxer.Feed | src/docker/LogDemux.cpp:22-67 | Returns exactly the frames the input so far completes; the dead prefix stays at most 65536 and no longer than the live bytes; no byte has been moved more than once |
| LogDemux.LogDemuxer.TakeFrames | src/docker/LogDemux.cpp:29-58 | Takes every complete frame and leaves less than the next item needs |
| LogDemux.LogDemuxer.Compact | src/docker/LogDemux.cpp:60-65 | Costs one move for each live byte, none of which had moved before |
| LogDemux.MoveLive | src/docker/LogDemux.cpp:60-65 | Moving every live byte once more leaves no byte moved twice, and costs one move for each |
| LogDemux.FeedAll | src/docker/LogDemux.cpp:22-67 | For every cut of a stream the frames concatenate to the whole decode, and total bytes moved is at most total bytes fed |
| LogDemux.DemuxAll | src/docker/LogDemux.cpp:69-85 | The payloads of each stream concatenated in order, stdin left out |
| StreamRead.HandOverMeaning | src/docker/StreamRead.hpp:32-51 | Every item before the last one handed over was accepted; the last one too, and then nothing is left out, or it was refused and nothing follows |
| StreamRead.ItemsMeaning | src/docker/StreamRead.hpp:37-47 | Frames become items of their own source, in order, and stdin frames none |
| StreamRead.AllItemsMeaning | src/docker/StreamRead.hpp:30-52 | With a tty each chunk is one stdout item; otherwise the items are those of the decoded whole |
| StreamRead.DeliverChunk | src/docker/StreamRead.hpp:30-52 | Hands over the frames this chunk completes, in order, or with a tty the chunk itself; true exactly when the consumer accepted each of them, and otherwise the last item handed over is the one it refused |
| StreamRead.Sink.OnChunk | src/docker/StreamRead.hpp:30-52 | However the stream was cut, the consumer has received what decoding the whole at once gives, up to the first item it refused, and the answer is its own |
| StreamRead.CollectsLikeDemuxAll | src/docker/StreamRead.hpp:30-52 | A consumer that accepts everything collects the two texts of demultiplexing the whole body |
| StreamRead.PumpExecStream | src/docker/StreamRead.hpp:129-165 | What the real demultiplexing sink handed over and why delivery ended, for every run of the exchange; the wedge report appears exactly for a timeout without a deadline; a deadline past at entry delivers nothing, the leftover included |
| StreamRead.PumpAnswers | src/docker/StreamRead.hpp:139-157 | The exchange stops for its consumer exactly when the sink has refused, and calls it no more |
| StreamRead.StreamRawToConsumer | src/docker/StreamRead.hpp:181-214 | The same for the plain read loop: decided by the reads begun before the deadline |
| StreamRead.FollowMeaning | src/docker/StreamRead.hpp:129-214 | ConsumerStopped says that the consumer refused the last item it was handed; otherwise it was handed everything that arrived, leftover first, and the end is that of the last read, a timeout under a deadline being DeadlineExpired |
| StreamRead.FollowInTimeMeaning | src/docker/StreamRead.hpp:181-214 | The same for the plain loop, where a read begun past the deadline is not made |
| StreamRead.FollowsAgree | src/docker/StreamRead.hpp:129-214 | With or without stdin, every sequence of read completions hands over the same items and ends the same way, except exactly when reading ends in a cancellation under a deadline |
| OccurrenceCounting.GreedyIsMaximal | src/WaitStrategies.cpp:34-45 | No choice of non-overlapping occurrences beats the count |
| OccurrenceCounting.GreedyIsAttained | src/WaitStrategies.cpp:34-45 | Some choice attains it |
| OccurrenceCounting.CountIsMaximum | src/WaitStrategies.cpp:34-45 | Any positions of the needle that do not overlap are at most as many as the count |
| OccurrenceCounting.CountIsReached | src/WaitStrategies.cpp:34-45 | Some such positions are as many |
| OccurrenceCounting.CountOccurrences | src/WaitStrategies.cpp:34-45 | The find loop returns that maximum; nothing for an empty needle |
| OccurrenceCounting.ScanAppend | src/WaitStrategies.cpp:47-74 | Counting may stop anywhere and resume with what a later match could still start in |
| OccurrenceCounting.OccurrenceCounter.Feed | src/WaitStrategies.cpp:47-74 | The count is that of everything fed, matches across chunks and trims included |
| OccurrenceCounting.CountChunks | src/WaitStrategies.cpp:47-74 | For every cut, the count of the whole text, with at most 65536 + needle - 1 characters buffered, and 65536 times the characters ever shifted by trims at most needle - 1 times the text |
| OccurrenceCounting.OccurrenceCounter.TrimIfLarge | src/WaitStrategies.cpp:68-73 | Dropping the scanned prefix keeps the count and what a later match needs, and pays for the characters it shifts |
| BuildStream.BuildStreamScanner.Feed | src/docker/ApiMapping.cpp:1006-1015 | Every complete line so far has been scanned once, in order, and with the pending text they join to all that was fed; the tail is the last 4096 characters of the output so far, or all of it, and the first error is kept |
| BuildStream.BuildStreamScanner.Finish | src/docker/ApiMapping.cpp:1017-1031 | Fails exactly when some line, a trailing fragment included, reported an error: the first one, with the last 4096 characters of the output if there is any |
| BuildStream.TailSnoc | src/docker/ApiMapping.cpp:1044-1051 | Cutting to the last 4096 characters after each addition keeps the last 4096 of the whole output |
| BuildStream.ScanChunks | src/docker/ApiMapping.cpp:1006-1069 | For every cut, the consumer calls and the outcome are those of the whole text split into lines |
| SshTunnel.Conn.ReadChannel | src/HostPortForwarding.cpp:379-398 | Buffers exactly what the channel gave, in order; stops only at end-of-file, a full buffer, nothing to read, or a failure |
| SshTunnel.Conn.WriteSocket | src/HostPortForwarding.cpp:402-416 | The socket took exactly the front of the buffer; stops with bytes left only when it would block; half-closes once the channel's end has drained |
| SshTunnel.Conn.ReadSocket | src/HostPortForwarding.cpp:418-432 | The mirror of reading the channel |
| SshTunnel.Conn.WriteChannel | src/HostPortForwarding.cpp:434-452 | The channel took exactly the front of the buffer; the end-of-file call is made exactly when the socket's end has drained and none went through before, and its flag rises exactly when it goes through |
| SshTunnel.Conn.Pump | src/HostPortForwarding.cpp:376-466 | A pass keeps both directions lossless, in order and below cap + 16 KiB. Unless something broke, bytes left in a buffer mean that the last write of this pass would have blocked, and each side was read until its end, 256 KiB of buffer, or a read that brought nothing. Done means broken, or both directions fully delivered; on a normal end the channel's end-of-file is out exactly when it was before or the session answered the last call of the pass with success |
| SshTunnel.Tunnel.PumpConns | src/HostPortForwarding.cpp:354-361 | Every live connection is pumped exactly once, unless the session breaks |
| SshTunnel.Tunnel.FreeDone | src/HostPortForwarding.cpp:363-373 | Only finished connections leave, and each of them has been freed once more |
| SshTunnel.Tunnel.Fail | src/HostPortForwarding.cpp:266-275 | Every socket is closed and the tunnel is dead |
| SshTunnel.Tunnel.Close | src/HostPortForwarding.cpp:179-182 | After teardown every accepted channel has been freed exactly once |
| SshTunnel.Run | src/HostPortForwarding.cpp:322-374 | For any listeners, passes and answers: there are as many connections as arrived, refused ones included, and each one's channel is freed exactly once; on every connection what was written to each side is a prefix of what was read from the other, within the buffer bounds; and one that ended normally has sent end-of-file exactly when the last such call went through |
| SshTunnel.DoneWithoutChannelEof | src/HostPortForwarding.cpp:448-457 | A run that ends normally without the channel's end-of-file |
| Containers.Container.constructor | include/testcontainers/Container.hpp:50-59 | A new handle owns its container; it may fire hooks if it has any, which an adopted one does not |
| Containers.Container.MoveFrom | include/testcontainers/Container.hpp:64-72 | Takes everything over; the source owns nothing and can fire nothing |
| Containers.Container.AssignFrom | include/testcontainers/Container.hpp:74-90 | Drops what the target owned, then takes over; onto itself nothing happens |
| Containers.Container.Drop | src/Container.cpp:199-219 | Asks for one removal, and runs the hooks that had not run, unless dropped before or persistent |
| Containers.Container.Stop | src/Container.cpp:164-197 | Fires the hooks once |
| Containers.CreateStartWait | src/Runner.cpp:149-201 | Returns a handle exactly when every step succeeds; a partial container is removed once |
| Containers.Run | src/Runner.cpp:207-223 | At most max(1, attempts) creates, all of them used up before giving up; every created container not returned is removed exactly once, the returned one not at all |
| HandleLifetimes.StepBalances | include/testcontainers/Container.hpp:64-93 | Each handle operation turns owners into removal requests or into persistent drops, one for one; only a start or an adoption adds an owner, and none adds a run of the hooks |
| HandleLifetimes.EveryContainerAccounted | src/Container.cpp:164-219 | For every run and every container, adopted or not: removal requests, persistent drops and present owners make up its creation and its adoptions; its hooks run at most once, and not at all while still due |
| HandleLifetimes.UnreturnedOnce | src/Runner.cpp:149-223 | A container created and not returned keeps its one removal request through whatever handles do afterwards, unless adopted |
| HandleLifetimes.SecondOwnerExactly | include/testcontainers/Container.hpp:43-59 | The one step that gives a container a second owner is adopting it while a handle owns it |
| HandleLifetimes.SoleThroughoutExactly | include/testcontainers/Container.hpp:43-93 | Over a run a container has at most one owner at every moment exactly when no step is such an adoption |
| HandleLifetimes.AtMostOnce | src/Container.cpp:164-219 | Over every sequence of starts, moves, keeps, stops, removals and destructions, a container nobody adopts has at most one owner, one removal and one firing; with no handle left a created one has exactly one removal unless its owner was persistent when it dropped |
| HandleLifetimes.BothOwnersDestroyed | include/testcontainers/Container.hpp:43-59 | When a container is adopted beside its owner and both handles go, there are as many removal requests as handles that remove on drop |
| HandlePrograms.Execute | src/Runner.cpp:207-223 | Programs over real handle objects and a daemon that may fail any call go through exactly those states, so the law of conservation and its bounds hold of the requests the daemon saw; it saw at most the attempts of each start as creates |
| DockerSession.Client.Request | src/docker/DockerClient.cpp:304-437 | Which attempts a call makes, on which connections, what is kept for the next call, and the answer: that of the last attempt, or why connecting failed; every history stays orderly |
| DockerSession.Client.EndSession | src/docker/DockerClient.cpp:439-449 | The cached connection goes, and the session is off |
| DockerSession.CachedKeepsOrder | src/docker/DockerClient.cpp:410-426 | After an attempt on the cached connection it is kept only if its response was whole and both sides keep it alive; a non-timeout failure alone leads on to a fresh one |
| DockerSession.FreshKeepsOrder | src/docker/DockerClient.cpp:428-436 | A fresh connection never carried anything before and is kept only for a session's GET |
| DockerSession.SideEffectsOnce | src/docker/DockerClient.cpp:312-316 | A request other than GET is sent once, on a connection nothing else uses |
| DockerSession.TimeoutIsFinal | src/docker/DockerClient.cpp:404-421 | A timed-out exchange is the last on its connection and the last of its call, and is never cached |
| DockerSession.AtMostTwoAttempts | src/docker/DockerClient.cpp:404-436 | No call makes three attempts |
| DockerSession.ReusedAfterWholeResponse | src/docker/DockerClient.cpp:381-436 | A connection is used again, or kept for that, only by GETs and after whole responses with keep-alive agreed |
| DockerSession.RetriedOnlyWhenStale | src/docker/DockerClient.cpp:404-426 | A second attempt follows at once, on a connection never used before, and only a GET that failed other than by timing out on one used before |
| DockerSession.Run | include/testcontainers/docker/DockerClient.hpp:84-103 | For any program of requests, nested guards and assignments: the history is orderly, and once no guard is alive every connection ever opened is gone |
| WindowsArgv.QuoteArg | src/Process.cpp:42-63 | Quotes one argument, backslash runs doubled where they touch a quote |
| WindowsArgv.PlainQuoted | src/Process.cpp:42-63 | Without quotes and backslashes inside, the argument stands between quotes as it is |
| WindowsArgv.BuildCommandLine | src/Process.cpp:65-74 | The command line reads back as the argument vector, whatever the reader does with a doubled quote |
| WindowsArgv.CommandLineRoundTrip | src/Process.cpp:38-74 | The same of every vector: empty arguments, embedded quotes, trailing backslash runs |
| WindowsArgv.ProgramRoundTrip | src/Process.cpp:38-63 | Read as a program name, a quoted argument comes back exactly when it has no quote and no trailing backslash |
| Base64.MakeDecodeTable | src/docker/Auth.cpp:27-34 | The table inverts the alphabet and marks every other byte |
| Base64.Encode | src/docker/Auth.cpp:66-99 | The encoding of section 4 of RFC 4648 |
| Base64.EncodedThree | src/docker/Auth.cpp:72-81 | Three bytes, as one number, are written as its four digits to base 64 |
| Base64.EncodedTwo | src/docker/Auth.cpp:89-96 | Two bytes at the end are filled up with zero bits and one `=` |
| Base64.EncodedOne | src/docker/Auth.cpp:83-88 | One byte at the end with zero bits and two `=` |
| Base64.EncodedShape | src/docker/Auth.cpp:66-99 | The length is a multiple of four, and `=` stands only in the last one or two places |
| Base64.AlphabetByRanges | src/docker/Auth.cpp:23-24 | The alphabet of table 1 of RFC 4648 |
| Base64.Decode | src/docker/Auth.cpp:101-126 | The bytes the letters pack into; nothing when some character is foreign |
| Base64.SkippedAnywhere | src/docker/Auth.cpp:111-113 | Padding and whitespace anywhere make no difference |
| Base64.ForeignGivesNothing | src/docker/Auth.cpp:114-117 | Any other character makes the result empty |
| Base64.AccumulatorStep | src/docker/Auth.cpp:118-123 | The pending bits survive the wrap-around of the 32-bit accumulator |
| Base64.RoundTrip | src/docker/Auth.cpp:66-126 | Decoding returns the encoded bytes, also without padding or with whitespace inserted anywhere |
| Base64.EncodeThenDecode | src/docker/Auth.cpp:66-126 | Running the encoder then the decoder returns the bytes |
| ShellQuote.ShellQuoteText | src/compose/ComposeCommand.cpp:70-81 | A single-quoted text, quotes inside escaped |
| ShellQuote.QuotedMeaning | src/compose/ComposeCommand.cpp:70-81 | Character by character between single quotes, each quote inside closed, escaped and reopened |
| ShellQuote.BuildEnvWrappedScript | src/compose/ComposeCommand.cpp:87-101 | A POSIX shell reads the script back exactly for names as keys and NUL-free text |
| ShellQuote.ScriptReads | src/compose/ComposeCommand.cpp:83-101 | With names for keys, the script is read as the assignments then the arguments, and refused exactly when something holds a NUL |
| ShellQuote.ScriptRoundTrip | src/compose/ComposeCommand.cpp:83-101 | It reads back as what it was built from exactly for names as keys and no NUL |
| ConnectionStrings.EncodeComponent | src/ConnectionString.cpp:15-33 | Decodes back to the value and holds no separator |
| ConnectionStrings.EncodedMeaning | src/ConnectionString.cpp:19-25 | Letters, digits and `-._~` stand for themselves |
| ConnectionStrings.EscapedMeaning | src/ConnectionString.cpp:26-30 | Any other byte is `%` and two upper-case hexadecimal digits, the high one first |
| ConnectionStrings.UrlMeaning | src/ConnectionString.cpp:38-70 | The parts of a URL, in order |
| ConnectionStrings.UserInfoMeaning | src/ConnectionString.cpp:40-48 | User and password as far as given, `:` before the password, `@` after both |
| ConnectionStrings.HostMeaning | src/ConnectionString.cpp:50-56 | A host with a colon is bracketed unless it starts with a bracket |
| ConnectionStrings.QueryMeaning | src/ConnectionString.cpp:65-69 | The first parameter follows `?`, every other one `&` |
| ConnectionStrings.ToString | src/ConnectionString.cpp:37-71 | Renders every component; for a plain scheme and host the URL parses back to all of them |
| ConnectionStrings.RoundTrip | src/ConnectionString.cpp:37-71 | A generic URI parse followed by percent-decoding returns every component, up to normalization |
| ConnectionStrings.RendersEqual | src/ConnectionString.cpp:37-71 | Two plain strings render alike exactly when they normalize alike |
| ConnectionStrings.AbsentUserIsLost | src/ConnectionString.cpp:40-48 | An absent and an empty user beside a password render alike |
| CivilDate.CalendarMeaning | src/docker/ApiMapping.cpp:648-657 | The calendar the formula is measured against is the Gregorian one, leap centuries included |
| CivilDate.EpochIsDayZero | src/docker/ApiMapping.cpp:648-657 | 1970-01-01 is day 0 |
| CivilDate.EraArithmetic | src/docker/ApiMapping.cpp:648-657 | The era formula, truncating division included, is the plain leap-year count for every year, negative ones too |
| CivilDate.NextDay | src/docker/ApiMapping.cpp:648-657 | Each next valid date is the next integer, for all years |
| CivilDate.DaysAreMonotone | src/docker/ApiMapping.cpp:648-657 | Day numbers order valid dates, so no two share one |
| CivilDate.AfterCounts | src/docker/ApiMapping.cpp:648-657 | The date n days later has the number n higher |
| CivilDate.DaysRollOver | src/docker/ApiMapping.cpp:595-657 | A day past the end of its month counts on into the next |
| Rfc3339.ParseRfc3339 | src/docker/ApiMapping.cpp:562-663 | Accepts exactly the texts of the grammar with bounded fields, and gives their instant |
| Rfc3339.PrintedDay | src/docker/ApiMapping.cpp:587-611 | Where the date and the time stand in a timestamp |
| Rfc3339.PrintedRest | src/docker/ApiMapping.cpp:613-646 | And the fraction and the zone behind them |
| Rfc3339.InstantMeaning | src/docker/ApiMapping.cpp:648-662 | The seconds it means, east of Greenwich being ahead |
| Rfc3339.StampBounds | src/docker/ApiMapping.cpp:587-640 | Which fields make a timestamp |
| Rfc3339.PrintParses | src/docker/ApiMapping.cpp:562-663 | A valid timestamp in any spelling of section 5.6 of RFC 3339 parses to its instant to the second, a leap second as the one before it |
| Rfc3339.OffsetsAgree | src/docker/ApiMapping.cpp:623-660 | Two spellings parse equal exactly when their local clocks differ by their offsets |
| Rfc3339.SpelledExactly | src/docker/ApiMapping.cpp:562-663 | A text spells a valid timestamp exactly when it is accepted, no field begins with a minus sign, and its day exists in its month |
| Rfc3339.DigitFieldsExactly | src/docker/ApiMapping.cpp:563-578 | An accepted text has digits only in its fields exactly when no field starts with a minus sign; a step towards the row above |
| Rfc3339.DayBeyondMonth | src/docker/ApiMapping.cpp:595-657 | An accepted text whose day does not exist is taken for the date that many days after the end of the month |
| Rfc3339.FebruaryAccepted | src/docker/ApiMapping.cpp:595-657 | A concrete such text: 31 February, accepted as 3 March |
| Rfc3339.SignedZeroHour | src/docker/ApiMapping.cpp:563-578 | Spelling the hour 00 as "-0" leaves every accepted text accepted with the same instant, though it spells no timestamp |
| Rfc3339.SignedFieldAccepted | src/docker/ApiMapping.cpp:563-578 | The concrete text that parses although it is no RFC 3339 timestamp |

## Left out

- Sockets, named pipes, TLS, the event loop, libssh2 and libarchive are scripts of answers. In
  the tunnel a successful write takes at least one byte.
- The event loop is assumed to run a handler only for an operation in flight, and to complete
  what was cancelled; other completions in a script count as handlers internal to the stream.
- Time is an integer clock read by the script; the truncation of budgets to milliseconds and
  the re-arming of the transport's own io deadline are not modelled.
- A consumer is a function of everything handed to it so far; one that throws is not modelled.
- JSON reading in the build stream is a parameter from a line to stream text, failure or other.
- The HTTP message layer is an outcome per exchange: whole response (with what the peer said
  about keeping the connection), timeout, or another failure.
- `stream_body_to_consumer`: the read loop over an HTTP body repeats the raw one.
- Characters in glob classes are compared as unsigned; the source compares `char`.
- Which minutes have a leap second is not modelled: a timestamp may show second 60 in any.
- Bit operations are written as arithmetic; 64-bit overflow cannot occur for four-digit years.
- The id of a moved-from handle is absent in the model; in the source it is an unspecified string.
- The sequence of hooks, copying, starting and waiting inside a start is a number of calls that
  may each fail.
- SshTunnel.Run: keepalives, the add-forward call, the mutex and the pump thread's timing are
  left out; a pass over the session is one atomic step.
- ConnectionStrings.RoundTrip: for a scheme with ':' or a host with separators a URL has no
  unique reading, so nothing is stated beyond what is rendered.
- DuplexExchange.Exchange: how many bytes of the write in flight the peer took before the
  cancellation is known only up to the size of that write.
- The reuse lookup, pull policies, labels and host access of a run; the credential cache and
  registry resolution; wait strategies around the counters; compose, reaper, network and volume
  handles; tar archives; hashes; and the module wrappers.
