# CyberCache: a verified model of the protocol core and its data structures

CyberCache Cluster is a cache server. Its clients, replicas and binary logs exchange commands and responses
in one binary format, which is built in memory, sent in whatever portions the system accepts, and read in
whatever portions the system delivers. This project models that core in Dafny, from the bytes of one chunk
to a message that travels from a writer to a reader, and beside it the parts of the server and of its
console that are algorithms of their own: the ring-buffer queue, the configuration tokenizer, the wildcard
matcher, the lock-free trackers, the descriptor tables, the console line editor and its history.

`dafny verify dfyconfig.toml` covers all of it.

## How it is built

Bytes are integers from 0 to 255 and sizes are unbounded integers; 32-bit and 64-bit truncation is written
out (`U32`, `% (ULONG_MAX + 1)`) where the source relies on it or could meet it. Commands and responses
share one model with a `Kind` parameter, because their automata differ only in what follows the header size
and in the early return of the response reader.

| modules | subject |
|---|---|
| `Bytes`, `Division`, `PowersOfTwo` | little-endian numbers, slices, the bit smear of `get_next_power_of_2` |
| `Chunks`, `Headers` | the wire format: chunks, descriptors, header layout, password hash |
| `Devices`, `Reading`, `Packets`, `Schedules` | the reader as a state machine over arbitrary partial reads |
| `Writing`, `Protocol` | the writer as a state machine with failures and rewinds; a message from end to end |
| `Binlogs` | the loader of binary logs |
| `Builders`, `PayloadLists`, `Iterators`, `Readers`, `Writers`, `Exchange` | the classes that do all this in place, proved against the above, and the way of a message through all of them |
| `Queues` | the ring buffer |
| `Tokens`, `Quoting`, `Statements`, `Parsers`, `Units` | configuration files, sizes and durations |
| `Matching` | wildcard masks |
| `Trackers` | compare-and-exchange trackers under every interleaving |
| `Tables`, `Vectors`, `Epolls` | descriptor tables and the registry on top of them |
| `Editing`, `LineInputs`, `Histories` | the console's line editor and its history |

A device is modelled by a script: for each call it says whether the call moves some bytes (and how many at
most), must be retried, meets the end, or fails. Statements about "every schedule" quantify over scripts.
A script is harmless if it holds only portions and retries.

## Two properties that do not hold

The editor of the console is meant to keep its cursor within the text. It does, for every key in every
state, except for one branch of the End key: when the text has become shorter than the window while the
window does not start at the first character, the column is set to the length of the text and the window is
not moved back (src/console/line_input.cc:222-234). `Editing.StepKeepsInv` and `Editing.RunKeepsInv` give
the exact condition, `Editing.InvCanFail` a sequence of six keys that meets it, and `Editing.OvershootIsOffset`
how far beyond the text the cursor then is.

A reader that has completed holds a well-formed message, except when the header is shorter than the payload
information that its descriptor announces. The accessor checks the length of the header buffer, which is at
least twelve bytes, and not that of the header (lib/c3lib/io_command_handlers.cc:101-112), so such a reader
takes the sizes from spare bytes. `Packets.DoneIsMessage` and `Schedules.OkIsMessage` give the exact
condition, `Packets.ShortHeaderIsAccepted` three bytes that meet it. The builders never produce such a header
(`Protocol.EncodeIsWellFormed`).

## Where the code and its comments differ

- A comment in `get_token` says that the next `skip_line_ws` will consume a line break after a backslash
  that is glued to an unquoted token (lib/c3lib/c3_parser.cc:457). The code ends the statement there:
  `Statements.GluedLineIsLost` gives four bytes that show it, and `Statements.ContinuesIfApart` says when the
  next line does belong to the statement, namely if and only if blanks stand between token and backslash.
- `epoll_ctl` refuses any operation without an event, also removal; the model does the same.

## Model

| member | source | states |
|---|---|---|
| Bytes.LittleEndian | lib/c3lib/io_reader_writer.h:251-331 | the least significant byte of a number comes first |
| Chunks.ChunkMasks | lib/c3lib/io_protocol.h:157-174 | the masks for type, subtype and value bits are the divisions and remainders by which the model dispatches, for all 256 bytes |
| Chunks.HeadOnWire | lib/c3lib/io_chunk_iterators.cc:106-160 | for every first byte, what its type, subtype and value bits make the iterator return, with the biases 8, 72, -1 and -9 of io_protocol.h, and when it has no counter to read |
| Chunks.EncodingIsShortest | lib/c3lib/io_chunk_builders.cc:30-76 | any bytes with the meaning of an encoding are longer, or are that encoding: each one-byte form, each mask and each bias is fixed |
| Chunks.MeasureEntityIsExact | lib/c3lib/io_chunk_builders.h:47-62 | the measure of an entity is the length of its encoding, for every 32-bit number and family |
| Chunks.MeasureNumberIsExact | lib/c3lib/io_chunk_builders.cc:350-377 | the estimate of a number from INT_MIN to UINT_MAX is the length of its encoding |
| Chunks.MeasureElementIsExact | lib/c3lib/io_chunk_builders.h:92 | the measure of a list element is the length of its prefix and bytes |
| Chunks.EntityReadsBack | lib/c3lib/io_chunk_builders.cc:30-76 | small, medium and large encodings of a count are told apart and undone, whatever follows them |
| Chunks.NumberReadsBack | lib/c3lib/io_chunk_builders.cc:519-549 | positive and negative numbers read back, whatever follows them |
| Chunks.ElementReadsBack | lib/c3lib/io_chunk_builders.cc:99-110 | a string of any length with its 255-run prefix reads back, whatever follows it |
| Chunks.ChunkReadsBack | lib/c3lib/io_chunk_iterators.cc:106-160 | a number, string or list reads back from its encoding and takes exactly its bytes |
| Chunks.ChunksReadBack | lib/c3lib/io_chunk_builders.cc:519-574 | any sequence of chunks decodes to itself |
| Chunks.PeekAgreesWithParse | lib/c3lib/io_chunk_iterators.cc:167-191 | on any bytes that parse, the type that is peeked is the type that is fetched |
| Headers.DescriptorFields | lib/c3lib/io_protocol.h:131-150 | the five fields of a descriptor byte do not disturb one another |
| Headers.DescriptorMasks | lib/c3lib/io_command_handlers.h:61-103 | the fields are those that the masks of the source select, for all 256 descriptors |
| Headers.DescriptorOnWire | lib/c3lib/io_protocol.h:131-150 | the descriptor of every built header, bit by bit: level, width of the size, width of the payload sizes, compression, marker |
| Headers.HeaderOnWire | lib/c3lib/io_chunk_builders.cc:398-517 | how many bytes each part of every built header takes: one, two or four for a size, the first that holds it, and nine for ID and hash; the size counts what follows it |
| Headers.AccessorsAgree | lib/c3lib/io_reader_writer.h:251-331 | on any consistent header the accessors find its size, its payload information and its chunks |
| Headers.LayoutAgrees | lib/c3lib/io_command_handlers.cc:50-90 | on every built header, in every size class and also without a size field, `get_header_info` delimits exactly the chunks, and the marker flag and level are the given ones |
| Headers.PayloadInfoAgrees | lib/c3lib/io_command_handlers.cc:92-170 | `get_payload_info` returns the stored compressor and sizes, before and after the payload arrives, and none if there is none |
| Headers.InfoIsRefused | lib/c3lib/io_command_handlers.cc:145-150 | payload information is refused if and only if it claims a compression by none of the compressors 1 to 8, or one that does not make the payload shorter |
| Headers.InfoAgrees | lib/c3lib/io_response_handlers.cc:66-141 | the payload information at its offset is read back for each width, compressed or not |
| Headers.CommandIdAgrees | lib/c3lib/io_command_handlers.h:69-99 | the command ID is found behind a size field of any width |
| Headers.PasswordReadsBack | lib/c3lib/io_command_handlers.cc:25-31 | the level and hash of a built command are returned, and none if it has none |
| Headers.PasswordIsReplaced | lib/c3lib/io_command_handlers.cc:33-48 | on success only the level bits and the hash bytes differ |
| Headers.SetPasswordIsSeen | lib/c3lib/io_command_handlers.cc:25-48 | in whatever header the password is replaced, `get_command_pwd_hash` then returns it, and the header keeps its size |
| Headers.SetPasswordRebuilds | lib/c3lib/io_command_handlers.cc:33-48 | replacing succeeds if and only if the header need not grow or shrink; the result is the header built with the new password and all else equal |
| Devices.Take | lib/c3lib/io_device_handlers.h:18-20 | a device call delivers a prefix of what is left, at most what was asked for, and succeeds exactly if that is at least one byte |
| Devices.Give | lib/c3lib/io_device_handlers.h:18-20 | a device call accepts a prefix of what is offered and succeeds exactly if that is at least one byte |
| Devices.InputDevice.ReadBytes | lib/c3lib/io_device_handlers.cc:31-57 | the bytes taken from the device land in the buffer at the offset and nowhere else |
| Devices.OutputDevice.WriteBytes | lib/c3lib/io_device_handlers.cc:59-83 | the bytes given to the device are those of the buffer from the offset on |
| Reading.Configure | lib/c3lib/io_shared_buffers.cc:91-100 | a header of more than twelve bytes gets a buffer of exactly its size, which keeps the bytes read so far; any other one stays where it is |
| Reading.ReceiveJoins | lib/c3lib/io_command_handlers.cc:186-333 | two deliveries within a part of a message have the effect of one delivery of both |
| Reading.ReceiveIsFeed | lib/c3lib/io_command_handlers.cc:186-333 | a delivery of any admissible size has the effect of its bytes one by one |
| Reading.ReceiveProgresses | lib/c3lib/io_response_handlers.cc:163-313 | each delivery lowers the rank of the state or the bytes that remain, so `read` terminates |
| Reading.ReadIsFeed | lib/c3lib/io_response_handlers.cc:163-313 | split independence: for every stream, well formed or not, and every schedule, `read` of a command or response leaves the reader in the state to which the bytes it counted lead one at a time, with the result code of that state |
| Reading.ReadReports | lib/c3lib/io_response_handlers.cc:163-313 | `read` ends at the first outcome of the device that is not a delivery, and returns it; at a delivery it returns an error if and only if the bytes are at fault, and asks to be called again only within the payload of a response or if the device has no more to give |
| Packets.FeedReceives | lib/c3lib/io_command_handlers.cc:186-333 | a well-formed message leads a new reader to completion with its header and payload |
| Packets.ReadShows | lib/c3lib/io_command_handlers.cc:186-333 | a call adds exactly the bytes it takes from the device to those that the buffers show as read, and its total is their number |
| Packets.DoneIsMessage | lib/c3lib/io_command_handlers.cc:310-318 | for every stream: if it leads a reader to completion, it starts with the header and the payload that the reader holds and, if announced, the marker 0xC3; that is a well-formed message if and only if the header is long enough for the payload information it announces |
| Packets.ShortHeaderIsAccepted | lib/c3lib/io_command_handlers.cc:101-112 | three bytes that complete a reader although the header is too short for its payload information |
| Packets.RefusedIsNoMessage | lib/c3lib/io_response_handlers.cc:163-313 | a stream that a reader refuses neither starts with a well-formed message nor is the beginning of one |
| Packets.NotFinishedEarly | lib/c3lib/io_command_handlers.cc:186-333 | no reader is finished before the last byte of a well-formed message |
| Packets.PrefixFree | lib/c3lib/io_command_handlers.cc:186-333 | the format is self-delimiting: if two streams that start with well-formed messages are equal, so are the messages and the rests |
| Schedules.ReadStaysInMessage | lib/c3lib/io_command_handlers.cc:186-333 | a call in the middle of a message never reads past its end and leaves the reader in the middle or at the end |
| Schedules.MessageIsDelivered | lib/c3lib/io_response_handlers.cc:163-313 | repeated calls under any schedule deliver the message or wait for more of it; each call that moves bytes makes progress |
| Schedules.DeliverIsFeed | lib/c3lib/io_command_handlers.cc:186-333 | split independence of any number of calls, for every stream and every schedule |
| Schedules.OkIsMessage | lib/c3lib/io_response_handlers.cc:290-298 | for every stream and every schedule: calls that end with success have taken exactly the header, the payload and, if announced, the marker 0xC3, and nothing after them |
| Schedules.LogReplays | lib/c3lib/io_command_handlers.cc:186-333 | under every schedule, with failures or without, a log of any number of concatenated messages, also one cut off within a further message, replays as the first of exactly these messages in order; as all of them if nothing fails and every byte has a moving call |
| Binlogs.LoadsLog | src/server/pl_file_pipelines.cc:122-141 | whatever the file system does and whenever a stop request comes, the loader hands on the first commands of the file, its size counter stands where the last of them ends, it reaches the size of the file if and only if all commands were handed on and the file is not cut off, and it is stopped exactly after the command at which a request is first seen |
| Binlogs.LoadsAll | src/server/pl_file_pipelines.cc:122-141 | if no call fails or waits, every whole command is handed on, unless a stop request comes |
| Binlogs.BinlogLoader.LoadBinlog | src/server/pl_file_pipelines.cc:112-145 | the loop, with a new reader for every command and the counter in place, does what the above is about; a stop request makes the pipeline inactive |
| Writing.WriteExtends | lib/c3lib/io_command_handlers.cc:361-454 | a call of `write` appends the next part of header, payload and marker to the device, counts it, and reports completion exactly at the end |
| Writing.RunSendsPrefix | lib/c3lib/io_command_handlers.cc:460-465 | in every sequence of writes, failures and rewinds the bytes since the last rewind are a prefix of the message, their counts add up to its length, and at completion they are the message |
| Writing.SendExtends | lib/c3lib/io_response_handlers.cc:344-437 | calls repeated after retries append a contiguous part of the message |
| Writing.SendCompletes | lib/c3lib/io_response_handlers.cc:344-437 | under a harmless schedule the writer stops only when the message is sent or the schedule is used up |
| Writing.WriteReports | lib/c3lib/io_command_handlers.cc:361-454 | `write` ends at the first outcome of the device that is not a delivery, and returns it, or with the message |
| Writing.FinishedRefuses | lib/c3lib/io_command_handlers.cc:361-454 | a writer that has finished sends nothing more and reports an error |
| Protocol.StoreLoads | lib/c3lib/io_chunk_builders.cc:291-317 | the stored payload, packed or not, unpacks to the data, for any lawful compressor |
| Protocol.CompressedOnWire | lib/c3lib/io_chunk_builders.cc:291-317 | the payload on the wire is the packed one, marked so in the descriptor and with its compressor and both sizes in the header, if and only if it is not empty, reaches the threshold, and the configured compressor packs it; otherwise it is the payload as given |
| Protocol.EncodeIsWellFormed | lib/c3lib/io_chunk_builders.cc:398-517 | every message that can be sent is well formed |
| Protocol.DecodeInvertsEncode | lib/c3lib/io_chunk_iterators.cc:237-260 | descriptor, ID, password, chunks and payload are recovered from the bytes of a message |
| Protocol.WriterKeepsOrder | lib/c3lib/io_command_handlers.cc:361-465 | the prefix law for the writer of a built message |
| Protocol.RoundTrip | lib/c3lib/io_command_handlers.cc:186-454 | any schedule of partial writes and any independent schedule of partial reads end with the content that was sent, the reader taking exactly the bytes of the message |
| Exchange.SendAll | lib/c3lib/io_command_handlers.cc:361-454 | repeated calls of `write` over the buffers do what the writer machine does |
| Exchange.ReceiveAll | lib/c3lib/io_command_handlers.cc:186-333 | repeated calls of `read` over the buffers do what the reader machine does |
| Exchange.Recover | lib/c3lib/io_chunk_iterators.cc:106-260 | accessors and iterators over the buffers of a reader return what the message says |
| Exchange.Transfer | lib/c3lib/io_command_handlers.cc:186-454 | builders, writer, reader and iterators, all in place and under any two schedules, return the content that was sent and leave the bytes behind it |
| Exchange.TransferList | src/server/pl_socket_pipelines.cc:559-576 | a list response: strings collected in the payload with their number in the header are, after the same way through all buffers, those strings in their order |
| Readers.MessageReader.Read | lib/c3lib/io_command_handlers.cc:186-333 | the class, with its buffers updated in place, does what the reader machine does, call by call |
| Readers.MessageReader.Turn | lib/c3lib/io_response_handlers.cc:163-313 | one turn of the loop leaves a machine with the same outcome still ahead and less to do |
| Readers.MessageReader.ConfigureHeader | lib/c3lib/io_shared_buffers.cc:91-100 | the inline buffer is kept or replaced by a larger one with the bytes read so far |
| Writers.MessageWriter.Write | lib/c3lib/io_command_handlers.cc:361-454 | the class does what the writer machine does, call by call |
| Writers.MessageWriter.Turn | lib/c3lib/io_response_handlers.cc:344-437 | one turn of the loop leaves a machine with the same outcome still ahead and less to do |
| Writers.MessageWriter.Rewind | lib/c3lib/io_command_handlers.cc:460-465 | the writer is ready to send from the start; nothing else changes |
| Writers.MessageWriter.SetPassword | lib/c3lib/io_command_handlers.cc:33-48 | the header in place becomes the one with the new password, or no byte changes; the writer stays valid in every state |
| Builders.PutLe | lib/c3lib/io_reader_writer.h:251-331 | the setters write the little-endian bytes and leave all others |
| Builders.PutEntity | lib/c3lib/io_chunk_builders.cc:30-76 | writes the encoding and returns its measure |
| Builders.PutNumber | lib/c3lib/io_chunk_builders.cc:519-549 | writes the encoding of a number of either sign |
| Builders.PutLength | lib/c3lib/io_chunk_builders.cc:99-106 | writes the 255-run prefix of a length and touches nothing after it |
| Builders.PutString | lib/c3lib/io_chunk_builders.cc:99-110 | appends exactly the encoding of a list element |
| Builders.HeaderListBuilder.Configure | lib/c3lib/io_chunk_builders.cc:138-147 | allocates exactly the estimate and the count, and writes the count |
| Builders.BuildList | lib/c3lib/io_chunk_builders.cc:121-158 | estimates, then adds, of the same strings fill the buffer exactly with the encoded list |
| Builders.HeaderIsStartAndChunks | lib/c3lib/io_chunk_builders.cc:398-517 | what `configure` writes depends on the size of the chunks only, and the header is that followed by the chunks |
| Builders.HeaderBuilder.MeasureHeader | lib/c3lib/io_chunk_builders.cc:417-448 | the size that `configure` counts is that of everything after the size field, and 0 for a header without one |
| Builders.HeaderBuilder.PutLead | lib/c3lib/io_chunk_builders.cc:484-496 | command ID and hash are appended as the format has them |
| Builders.HeaderBuilder.PutInfo | lib/c3lib/io_chunk_builders.cc:498-514 | compressor and sizes are appended in the width of the larger one |
| Builders.HeaderBuilder.Configure | lib/c3lib/io_chunk_builders.cc:398-517 | the header has room for all that was estimated and starts as the format has it |
| Builders.BuildHeader | src/server/pl_socket_pipelines.cc:340-425 | when adds mirror estimates, the header is filled exactly, so `check()` cannot fail, and is the encoded header |
| PayloadLists.GrowthGuess | lib/c3lib/io_chunk_builders.cc:203-249 | the growth is never less than the element needs, also where its 32-bit arithmetic wraps around |
| PayloadLists.GrowthIsProportional | lib/c3lib/io_chunk_builders.cc:203-249 | unless the product wraps around, the buffer grows by at least a fifth of the bytes it holds beyond one for every string |
| PayloadLists.PayloadListBuilder.Add | lib/c3lib/io_chunk_builders.cc:203-249 | fails if and only if used and measured length together exceed 32 bits; never writes past the allocation; otherwise the list has one more element |
| PayloadLists.PayloadListBuilder.ReadsBack | lib/c3lib/io_chunk_iterators.cc:54-67 | the buffer decodes to the strings that were added |
| Iterators.ChunkIterator.GetCount | lib/c3lib/io_chunk_iterators.cc:81-104 | the counter behind the chunk byte, most significant byte first in the loop, is the little-endian number |
| Iterators.ChunkIterator.GetNextChunk | lib/c3lib/io_chunk_iterators.cc:106-160 | reports the chunk at the position and moves past it, for a list past its count only |
| Iterators.ChunkIterator.GetElement | lib/c3lib/io_chunk_iterators.cc:54-67 | returns the element at the position and moves past it |
| Iterators.ChunkIterator.GetChunks | lib/c3lib/io_chunk_iterators.cc:106-160 | fetching until nothing is left returns the chunks that the bytes encode |
| PowersOfTwo.SmearFills | lib/c3lib/c3_utils.cc:20-28 | the five shifts fill every bit below the highest one, for every 32-bit number |
| PowersOfTwo.NextPowerOf2IsLeast | lib/c3lib/c3_utils.cc:20-28 | for 1 to 2^31 the result is the least power of two that is not less |
| PowersOfTwo.NextPowerOf2OfZero | lib/c3lib/c3_utils.cc:20-28 | for 0 the wrap-around gives 0 |
| PowersOfTwo.MaskWraps | lib/c3lib/c3_queue.h:90-100 | the index mask of a power of two brings an index of the next lap back |
| Queues.ValidCapacityIsSound | lib/c3lib/c3_queue.h:62-70 | a validated capacity is a power of two from 1 to 65536 |
| Queues.SetCapacityIsSound | lib/c3lib/c3_queue.h:72-101 | a change of capacity keeps count <= capacity <= maximum <= 65536, and powers of two |
| Queues.SetMaxCapacityIsSound | lib/c3lib/c3_queue.h:103-119 | so does a change of the maximum, also one below the contents |
| Queues.CapacitiesAreLeast | lib/c3lib/c3_queue.h:72-119 | the capacity becomes the least power of two that holds the contents and, up to the maximum, the request; the maximum becomes the least one that holds the contents and, up to 65536, the request, and cuts the capacity down to itself |
| Queues.GrownIsSound | lib/c3lib/c3_queue.h:182-198 | a full queue below its maximum doubles exactly, so an element is refused if and only if the maximum is reached |
| Queues.RunsAreFifo | lib/c3lib/c3_queue.h:166-210 | over every interleaving of put, get and changes of capacity, what was accepted is what was delivered followed by the contents, in order |
| Queues.Queue.constructor | lib/c3lib/c3_queue.h:132-137 | a new queue is empty with the validated capacity, at most the validated maximum |
| Queues.Queue.ConfigureCapacity | lib/c3lib/c3_queue.h:72-101 | the ring moves to a buffer of the new capacity with its elements in order |
| Queues.Queue.ConfigureMaxCapacity | lib/c3lib/c3_queue.h:103-119 | the ring shrinks if it can and never loses an element |
| Queues.Queue.PutElement | lib/c3lib/c3_queue.h:182-198 | the element becomes the last one if and only if the count was below the maximum |
| Queues.Queue.GetElement | lib/c3lib/c3_queue.h:200-209 | the first element is taken out, or nothing if there is none |
| Matching.StarFirst | lib/c3lib/c3_string.cc:164-172 | a leading asterisk admits a string if and only if the rest of the mask admits some tail of it |
| Matching.SegmentFirst | lib/c3lib/c3_string.cc:144-160 | the part up to the next asterisk matches character by character, and the rest by itself |
| Matching.PlainMask | lib/c3lib/c3_string.cc:144-160 | a mask without byte 42 admits, with regard to case, itself only |
| Matching.IgnoresCase | lib/c3lib/c3_string.cc:153 | matching that ignores case admits a string if and only if matching with regard to case admits one that differs from it in the case of letters only |
| Matching.MaskIgnoresCase | lib/c3lib/c3_string.cc:153 | nor does the case of the letters of the mask matter |
| Matching.GetMatchLength | lib/c3lib/c3_string.cc:144-160 | returns the length of the first segment if the string starts with it; 0 means that the string is not in the language |
| Matching.Matches | lib/c3lib/c3_string.cc:162-196 | terminates with true if and only if some choice of strings for the asterisks turns the mask into the string, case-sensitive or not |
| Matching.StringMatcher.MatchesMask | lib/c3lib/c3_string.cc:198-204 | as above, and counts exactly the matches |
| Tokens.SkipSpaceIsFirst | lib/c3lib/c3_parser.cc:335-363 | the next statement starts at the first byte that is no blank, no line break and in no comment |
| Tokens.SkipLineSpaceIsFirst | lib/c3lib/c3_parser.cc:365-401 | the next argument or the end of the statement is at the first byte that is no blank, no backslash and no line break right after one |
| Tokens.GetToken | lib/c3lib/c3_parser.cc:403-525 | from the first byte of a token the position strictly advances |
| Tokens.ItemBreaks | lib/c3lib/c3_parser.cc:403-525 | a step within a token crosses a line break only if it is a continued line, and never splits CR LF |
| Tokens.ContinuationBreaks | lib/c3lib/c3_parser.cc:365-401 | a backslash takes along at most one line break, of any of the three kinds |
| Quoting.QuotedTokenIsRead | lib/c3lib/c3_parser.cc:403-525 | a quoted token, each byte literal or in any of its escape forms and with continued lines, is returned byte for byte, whatever surrounds it |
| Quoting.QuotedTokenIff | lib/c3lib/c3_parser.cc:403-525 | a token that starts with a quote has a value if and only if it is written as a quoted token of that value |
| Quoting.PlainTokenIsRead | lib/c3lib/c3_parser.cc:403-525 | a token without quotes, with escapes, ends at the first blank, line break or comment, or at a backslash before a line break, and is returned unescaped |
| Statements.ContinuesIfApart | lib/c3lib/c3_parser.cc:365-460 | after a token without quotes and an escaped line break, the arguments of the next line belong to the statement if and only if blanks stand before the backslash; otherwise the statement ends at the line break |
| Statements.GluedLineIsLost | lib/c3lib/c3_parser.cc:450-460 | an input whose second line is not an argument, against the comment in the source |
| Statements.ByteBeforeStatement | lib/c3lib/c3_parser.cc:335-363 | which of the 256 bytes are white space before a statement, and which one starts a comment |
| Statements.ByteBetweenLetters | lib/c3lib/c3_parser.cc:403-525 | which of the 256 bytes separate arguments, end a statement, escape, or are one more character of a token |
| Statements.ByteAroundLetter | lib/c3lib/c3_parser.cc:403-425 | three bytes, and no others, are quotes |
| Statements.NameEndsAtZero | lib/c3lib/c3_parser.cc:527-546 | the name of a command ends at its first zero byte |
| Quoting.EveryTextIsWritten | lib/c3lib/c3_parser.cc:476-482 | every byte string, each byte as a backslash and two digits, each digit in upper or lower case, within quotes of any kind and whatever surrounds them, is returned byte for byte |
| Statements.ScriptIsParsed | lib/c3lib/c3_parser.cc:548-603 | each of any list of statements of words, with quotes or without, reaches its command with exactly those words, whatever blanks, continued lines, comments, empty lines and line breaks of the three kinds stand around them, unless the command is unknown or there are more than fifteen arguments |
| Parsers.Parser.SkipWs | lib/c3lib/c3_parser.cc:335-363 | moves as specified, with the line number one more than the line breaks consumed |
| Parsers.Parser.SkipLineWs | lib/c3lib/c3_parser.cc:365-401 | the same within a statement |
| Parsers.Parser.ReadToken | lib/c3lib/c3_parser.cc:403-525 | the loop leaves the bytes of the token in the buffer and does not disturb those before it |
| Parsers.Parser.GetToken | lib/c3lib/c3_parser.cc:403-525 | returns the place of the token in the buffer, with all earlier tokens intact |
| Parsers.Parser.AddArgument | lib/c3lib/c3_parser.cc:527-536 | the seventeenth entry, counting the command, is refused |
| Parsers.Parser.CollectArguments | lib/c3lib/c3_parser.cc:572-580 | complete if and only if there are fewer than sixteen arguments; then all of them are held |
| Parsers.Parser.ParseStatement | lib/c3lib/c3_parser.cc:561-599 | a statement is executed with all its arguments, or is unknown, overfull or malformed; in each case the position is at its end |
| Parsers.Parser.ParseAll | lib/c3lib/c3_parser.cc:548-603 | the statements are handled in order up to the end of the buffer, the final line number is one more than its line breaks, and the result says whether any was refused |
| Parsers.ScriptSucceeds | lib/c3lib/c3_parser.cc:548-603 | a script succeeds if and only if every command in it is known, has at most fifteen arguments, and succeeds with its words |
| Parsers.ScriptFits | lib/c3lib/c3_parser.cc:420-424 | such statements fit the token buffer if the lengths of the words, with one more for each, add up to at most 4096 |
| Units.ClimbIsExact | lib/c3lib/c3_parser.cc:222-266 | the number printed times its unit is the value |
| Units.PrintsLargestUnit | lib/c3lib/c3_parser.cc:222-266 | the printed unit is the largest of the ladder that divides the value |
| Units.NumeralIsRead | lib/c3lib/c3_parser.cc:47-64 | decimal, octal and hexadecimal numbers in digits of either case, after blanks, with or without a sign and with at most one more character, are read as such, and as 2^64 - 1 if they are larger |
| Units.MeasureIsRead | lib/c3lib/c3_parser.cc:47-64 | a decimal number and at most one more character are that number and that suffix |
| Units.SizeLetters | lib/c3lib/c3_parser.cc:106-137 | for every letter in both cases, the number of bytes in its unit; no letter means bytes, any other one an error |
| Units.DurationLetters | lib/c3lib/c3_parser.cc:139-170 | the same in seconds, for numbers of 32 bits; larger ones are errors |
| Units.SizeReadsBack | lib/c3lib/c3_parser.cc:106-137 | every 64-bit size reads back from its printed form, without overflow |
| Units.DurationReadsBack | lib/c3lib/c3_parser.cc:139-170 | every 32-bit duration reads back from its printed form, without overflow |
| Trackers.RunTracks | lib/c3lib/c3_profiler.h:70-95 | under every interleaving, with spurious failures, a tracker never gets worse and holds its first value or a submitted one |
| Trackers.NothingIsLost | lib/c3lib/c3_profiler.h:19-25 | once all updates are over the tracker holds the best of all values |
| Trackers.ExactlyTheBest | lib/c3lib/c3_profiler.h:70-95 | a tracker that was reset ends with the least, or the greatest, of the submitted values |
| Trackers.EndsAlone | lib/c3lib/c3_profiler.h:70-95 | from any state two undisturbed steps end an update: no thread waits for another |
| Tables.CountIsLive | lib/c3lib/c3_descriptor_vector.h:42-44 | size less holes is the number of live handles |
| Tables.AddIsMapUpdate | lib/c3lib/c3_descriptor_vector.h:111-124 | adding gives a handle that was not in use and disturbs no other; freed indices stay distinct and in range |
| Tables.RemoveIsMapRemoval | lib/c3lib/c3_descriptor_vector.h:125-143 | removing takes away one live handle and disturbs no other, also when the table becomes empty |
| Tables.HandlesAreStable | lib/c3lib/c3_descriptor_vector.h:111-143 | through any sequence of additions and removals, a live handle keeps its element until it is removed |
| Vectors.Vector.Push | lib/c3lib/c3_vector.h:205-224 | appends the element, growing the buffer when needed |
| Vectors.Vector.Pop | lib/c3lib/c3_vector.h:225-241 | takes off the last element |
| Vectors.Vector.ClearAt | lib/c3lib/c3_vector.h:244-268 | clears a slot, saying if and only if that leaves a hole; the last slot and the last element shrink the vector |
| Vectors.DescriptorVector.Insert | lib/c3lib/c3_descriptor_vector.h:111-124 | the vector with its stack of holes, updated in place, gains the element under a new handle |
| Vectors.DescriptorVector.Delete | lib/c3lib/c3_descriptor_vector.h:125-143 | it loses the handle and nothing else |
| Epolls.EpollInstance.Find | lib/c3lib/c3_epoll.cc:101-109 | finds the slot of a descriptor if and only if it is registered; holes are never found |
| Epolls.EpollInstance.RemoveDescriptor | lib/c3lib/c3_epoll.cc:111-119 | unregisters the descriptor, or reports that it was not registered |
| Epolls.EpollInstance.Ctl | lib/c3lib/c3_epoll.cc:140-172 | ADD, MOD and DEL update a finite map from descriptors to events, each registered at most once, with the error codes of the source |
| Epolls.RegistryLaws | lib/c3lib/c3_epoll.cc:140-172 | whatever is registered, an addition can be changed and undone, leaving all else as it was, cannot be repeated, and must come first |
| Epolls.RegistryRefuses | lib/c3lib/c3_epoll.cc:138-177 | a command that fails changes nothing, and one without a descriptor, an event or one of the three operations fails with EINVAL |
| Epolls.EpollCtl | lib/c3lib/c3_epoll.cc:138-177 | through an epoll handle, exactly the registry of that handle is updated and every other one is as it was; EINVAL, and nothing changed, if the handle has no instance |
| Epolls.EpollCreate | lib/c3lib/c3_epoll.cc:128-136 | a new, empty registry under a handle that was not in use, with every other one as it was; EINVAL for a size that is not positive |
| Epolls.EpollClose | lib/c3lib/c3_epoll.cc:249-277 | the registry of the handle is gone and every other one is as it was; EBADF if there was none |
| Histories.HistoryIsTail | src/console/line_editor.cc:50-87 | after any lines the history is the end, of at most the maximum length, of the lines with only their last occurrences |
| Histories.LineEditor.Enter | src/console/line_editor.cc:50-87 | the history of some lines becomes the history of those and the new one |
| Histories.StartsWithPrefix | lib/c3lib/c3_string.cc:46-60 | a prefix match that ignores case, false if the string is shorter |
| Histories.LineEditor.FindFirst | src/console/line_editor.cc:100-112 | the last entry with the prefix, or none if there is none |
| Histories.LineEditor.FindNext | src/console/line_editor.cc:114-131 | the nearest entry with the prefix backward and around, with the index wrapping at zero |
| Histories.VisitsAllBackward | src/console/line_editor.cc:114-131 | repeated searches visit in backward cyclic order exactly the entries with the prefix, each once, and end where they began |
| Editing.LayOut | src/console/line_input.cc:63-73 | prompt, entry area and one column make up the window in both branches; the window is taken to be wider only for the narrowest entry area |
| Editing.WordRightIsNearest | src/console/line_input.cc:196-213 | the cursor goes to the nearest start of a word to the right, or to the end |
| Editing.WordLeftIsNearest | src/console/line_input.cc:166-186 | the cursor goes to the nearest start of a word to the left, or to the beginning |
| Editing.WordCharacters | src/console/line_input.cc:196-213 | words consist of letters, digits and underscores |
| Editing.WindowFollows | src/console/line_input.cc:155-234 | the window stays while the cursor stays within it, starts at the cursor if that leaves it to the left, and ends at it, or one column further after a word, if to the right |
| Editing.StepKeepsInv | src/console/line_input.cc:149-316 | from a state that satisfies the viewport invariant, a key keeps it if and only if it is not End with the window moved, the text shorter than the window, and the cursor before the end |
| Editing.RunKeepsInv | src/console/line_input.cc:149-316 | all states of a sequence of keys satisfy the invariant if and only if no key meets that condition |
| Editing.InvCanFail | src/console/line_input.cc:222-234 | a sequence of keys that leaves the cursor beyond the text |
| Editing.OvershootIsOffset | src/console/line_input.cc:222-234 | in that case the cursor is beyond the text by exactly the offset of the window, and the number of characters that an insertion there would move is negative if and only if the offset is more than one |
| Editing.KeyEditsAtCursor | src/console/line_input.cc:149-316 | each key leaves the text unchanged or is exactly an insertion or deletion at the cursor, and moves the cursor as named, except for the End key in the case above |
| Editing.TypedIsInserted | src/console/line_input.cc:289-300 | a printable character goes in as it is; any other one as three characters that the parser, within quotes of any kind, reads as that character; both exactly if there is room for them |
| Editing.CtrlDeleteErases | src/console/line_input.cc:258-285 | from a space, the spaces there go; from any other character, everything before the next space or punctuation mark and the spaces there; nothing else |
| Editing.RedrawShowsWindow | src/console/line_input.cc:93-136 | whatever was shown, the redraw string is shorter than 3 * width + 1, and it shows the window with the cursor in its column if the window holds no backspace; if it holds one and none was shown before, it does not |
| Editing.StepKeepsPrintable | src/console/line_input.cc:289-300 | every key keeps a printable text printable |
| Editing.ScreenShowsText | src/console/line_input.cc:86-316 | through any keys of which none meets the condition above, the screen shows the window of the text and the cursor in its column |
| LineInputs.LineInput.constructor | src/console/line_input.cc:54-88 | the text is the given contents, the cursor at its end, the window at the last part that fits |
| LineInputs.LineInput.Erase | src/console/line_input.cc:235-288 | the buffer is closed over the deleted part, with the zero moving along |
| LineInputs.LineInput.Insert | src/console/line_input.cc:289-307 | the buffer is opened for the inserted characters, with the zero moving along |
| LineInputs.LineInput.FindWordLeft | src/console/line_input.cc:166-186 | the loops over the buffer find the start of the word |
| LineInputs.LineInput.FindWordRight | src/console/line_input.cc:196-213 | the loops over the buffer find the start of the next word |
| LineInputs.LineInput.HandleKey | src/console/line_input.cc:149-316 | the loop body over the buffer does what the step function does, and keeps the invariant if and only if the key does not overshoot |
| LineInputs.LineInput.Redraw | src/console/line_input.cc:93-136 | the three loops build the redraw string within the 3 * width + 1 characters of the source |

## Left out

- Socket, file and poll system calls: replaced by the scripts of `Devices`.
- Compression engines and hash functions: a compressor is any pair of functions that unpacks what it packs.
- Connection to PHP, console commands, help text, terminal output and the table of key escape sequences.
- Cloning and reference counts of shared buffers; uninitialised memory is a fixed byte named `junk`.
- `rw_pos` and `rw_remains` where the source never reads them again (waiting for the marker, after an error): they are given fixed values, so that states can be compared.
- Headers that violate the assertions of the reader, such as a header size that leaves nothing to read: the model treats them as errors.
- PayloadLists.PayloadListBuilder.Add: requires that the measured length of the string does not wrap around 32 bits and that there are fewer than 2^32 - 1 strings, without which the source has no defined result.
- Parsers.Parser.ReadToken: requires that the token fits what is left of the 4096 bytes of the token buffer.
- Parsers.Parser.ParseStatement: requires that the statement fits the token buffer.
- Parsers.Parser.GetToken: requires that the statement fits the 4096 bytes of the token buffer, so the error for statements that are too long is not modelled.
- Parsers.Parser.ParseAll: requires that every statement fits the token buffer; the command table is a set of names and the handlers a function of the arguments; log messages and the 32-bit range of the line number are not modelled.
- Units.MeasureIsRead: the buffer for the printed text is taken to be large enough.
- Histories.LineEditor.FindNext: requires that the last search found an entry that is still there, as the source asserts.
- Vectors.Vector.Pop: requires an element, as the source asserts.
- Vectors.DescriptorVector.Delete: requires a live handle; `sort` is left out because it moves elements under live handles.
- Epolls.EpollCtl: requires a handle within the table, as the source asserts; `epoll_wait` is left out.
- Epolls.EpollClose: requires that nothing is registered any more, as the destructor of the instance asserts, and a handle within the table.
- Binlogs.BinlogLoader.LoadBinlog: the header of the file and log messages are left out.
- Editing.KeyEditsAtCursor: keys that end the line, and password entry, are left out.
- Logging, performance-counter output, memory quotas, and the threads, stores and pipelines of the server.
