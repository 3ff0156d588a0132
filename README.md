# tom — a verified model of its core

`tom` is a command-line toolbox with a small web-socket file server. This project models its core in Dafny and proves properties of the model:

- **Remote file session** (`ws_server.dfy`, `ws_tree.dfy`, `ws_messages.dfy`). The server's command loop answers motd, cd, ls, get and put requests over a web socket. The current directory is confined to a root directory: cd never leaves it. Put names are not confined, and one with ".." pieces can write outside the root. Downloads are sent as binary frames followed by a SHA-256 digest. Uploads are checked against the digest the client sends. The file system is a tree of directories and files with byte contents.
- **Token filter and server start-up** (`token_filter.dfy`, `ws_program.dfy`). The request filter checks the access token. The generated password is 128 alphanumeric characters, and the listen address is built from the host and port.
- **Client** (`ws_client.dfy`). `tom wsc` has a certificate acceptance callback, derives its ping address, and runs an interactive loop: prompt, cd/ls/motd requests, help and quit.
- **Throttled stream** (`throttled_stream.dfy`). A stream wrapper limits bytes per second. The clock and the sleep are parameters.
- **Hashing** (`crc32.dfy`, `blockhash.dfy`).
  - CRC-32 uses the reflected polynomial 0xEDB88320 (the frame check sequence of clause 3.2.9 of IEEE 802.3).
  - The integer path of the blockhash perceptual image hash and its Hamming distance.
- **Utilities** (`enumerable_extensions.dfy`, `tom_extensions.dfy`, `output.dfy`, `progress_logger.dfy`):
  - lowercase hex encoding, the median and the Fisher–Yates shuffle;
  - the console table writer's column widths and row layout;
  - the counters and bar of the file progress logger.
- **File commands** (`files.dfy`, `hash_rename.dfy`, `hash_hardlink.dfy`, `image_dedup.dfy`, `image_dimension.dfy`):
  - renaming files to their hash (three versions);
  - replacing duplicate files by hard links;
  - renaming near-duplicate images next to their earlier twin;
  - moving images below a size threshold aside.

Some library functions the source calls are modelled in supporting modules:

- `text.dfy`: trimming, splitting, padding, case folding and number formatting;
- `sorting.dfy`: a reference sort with its uniqueness theorem;
- `arith.dfy`: integer division facts;
- `wrappers.dfy`: `Option` and `Result`. Exceptions appear as the failure value of a `Result`, named by the .NET exception type.

Inputs the program gets from outside the model are parameters of the members that use them. These are:

- decoded JSON messages;
- SHA-256 digests;
- decoded images and their blockhash;
- the file-pattern matcher;
- hard-link creation;
- random bytes and random indices;
- the clock.

## Model

| member | source | states |
|---|---|---|
| WebSocketServer.OrdinalLeTotal | src/ws/Controllers/WebSocketController.cs:182 | any two names are ordered one way or the other |
| WebSocketServer.OrdinalLeTransitive | src/ws/Controllers/WebSocketController.cs:182 | the ordinal order is transitive |
| WebSocketServer.OrdinalLeAntisymmetric | src/ws/Controllers/WebSocketController.cs:182 | names ordered both ways are equal |
| WebSocketServer.SubdirsAreTheDirectories | src/ws/Controllers/WebSocketController.cs:125 | GetDirectories lists exactly the child directories |
| WebSocketServer.FilesOfAreTheFiles | src/ws/Controllers/WebSocketController.cs:163 | GetFiles lists exactly the child files |
| WebSocketServer.Listing | src/ws/Controllers/WebSocketController.cs:149-177 | fails with DirectoryNotFound exactly when the current directory is missing; otherwise an ls reply naming its full name |
| WebSocketServer.ListingEntries | src/ws/Controllers/WebSocketController.cs:154-171 | every child directory is listed with the size of everything beneath it, every child file with its length, each under its name |
| WebSocketServer.CdConfined | src/ws/Controllers/WebSocketController.cs:122-147 | from the root or below, every cd stays at the root or below it |
| WebSocketServer.CdUpAtRoot | src/ws/Controllers/WebSocketController.cs:127-142 | at the root, cd .. is refused with the "directory does not exist" error and the directory stays |
| WebSocketServer.CdUpBelowRoot | src/ws/Controllers/WebSocketController.cs:127-132 | below the root, cd .. moves to the parent and lists it |
| WebSocketServer.CdIntoChild | src/ws/Controllers/WebSocketController.cs:126-147 | any other cd enters exactly the first child directory of that name and lists it, or replies with the error |
| WebSocketServer.CandidatesAreTheMatches | src/ws/Controllers/WebSocketController.cs:182 | the candidates are exactly the matching non-empty files, no more often than found |
| WebSocketServer.ByFullNameIsTotalPreorder | src/ws/Controllers/WebSocketController.cs:182 | ordering by full name is a total preorder |
| WebSocketServer.Selection | src/ws/Controllers/WebSocketController.cs:182 | a missing current directory fails with DirectoryNotFound |
| WebSocketServer.SortByFullName | src/ws/Controllers/WebSocketController.cs:182 | the sort keeps the files and orders them pairwise by full name |
| WebSocketServer.SelectionIsSortedCandidates | src/ws/Controllers/WebSocketController.cs:182 | the selection is a permutation of the matching non-empty files below the directory, in ascending ordinal order of full name |
| WebSocketServer.RelativeName | src/ws/Controllers/WebSocketController.cs:203 | the name cut from the full name is the full name of the path below the current directory |
| WebSocketServer.GetEntries | src/ws/Controllers/WebSocketController.cs:199-206 | one entry per selected file, in order: not a directory, named by its path below the current directory, with its length in bytes |
| WebSocketServer.ChunkAt | src/ws/Controllers/WebSocketController.cs:269-271 | each read returns at least one byte and at most a buffer, within the file |
| WebSocketServer.FramesCarryTheBytes | src/ws/Controllers/WebSocketController.cs:268-275 | the frames carry exactly the file's bytes in order, each a non-empty binary frame of at most a buffer |
| WebSocketServer.FramesEndOnce | src/ws/Controllers/WebSocketController.cs:274 | exactly the last frame of a non-empty file ends the message |
| WebSocketServer.WholeBuffersNeverEnd | src/ws/Controllers/WebSocketController.cs:274 | as written, a file whose length is a whole number of buffers sends no frame that ends the message |
| WebSocketServer.OneBufferFileLeavesMessageOpen | src/ws/Controllers/WebSocketController.cs:274 | a file of exactly 131072 bytes is sent as one frame that leaves the message open |
| WebSocketServer.AsWrittenAgreesOtherwise | src/ws/Controllers/WebSocketController.cs:274 | for other lengths the code as written sends the corrected frames |
| WebSocketServer.TransfersStep | src/ws/Controllers/WebSocketController.cs:259-289 | one more file appends its frames and its GetEnd, and adds its length |
| WebSocketServer.Segments | src/ws/Controllers/WebSocketController.cs:220 | a name splits into at least one piece at its separators |
| WebSocketServer.SeparatorAt | src/ws/Controllers/WebSocketController.cs:220 | a split position holds a separator |
| WebSocketServer.NormalizeStaysBelow | src/ws/Controllers/WebSocketController.cs:220 | a put name with no ".." piece lands below the current directory |
| WebSocketServer.PutNameCanLeaveRoot | src/ws/Controllers/WebSocketController.cs:220 | a put of "..\x" from the root directory "srv" writes "x" next to it |
| WebSocketServer.PutNameCanNameDirectory | src/ws/Controllers/WebSocketController.cs:220 | a put name ending in a separator, "a\", designates the directory a, not a file |
| WebSocketServer.PutContent | src/ws/Controllers/WebSocketController.cs:310-321 | after a put the file holds exactly the bytes received |
| WebSocketServer.ShorterUploadKeepsOldTail | src/ws/Controllers/WebSocketController.cs:310 | as written, one byte uploaded over a 3-byte file leaves 3 bytes of which only the first is new |
| WebSocketServer.AsWrittenAgreesOnLongerUploads | src/ws/Controllers/WebSocketController.cs:310 | an upload at least as long as the old file is unaffected |
| WebSocketServer.MessageEnd | src/ws/Controllers/WebSocketController.cs:313-320 | the index of the first result that ends a message, or -1 |
| WebSocketServer.MessageEndAt | src/ws/Controllers/WebSocketController.cs:313-320 | an ending result with none before it is the message end; none at all gives -1 |
| WebSocketServer.CollectedStep | src/ws/Controllers/WebSocketController.cs:313-320 | one more received result adds its bytes, and ends the loop exactly when it ends the message |
| WebSocketServer.CollectedAll | src/ws/Controllers/WebSocketController.cs:313-320 | when the input runs out without an end, every result's bytes were collected |
| WebSocketServer.PutEndCheckFacts | src/ws/Controllers/WebSocketController.cs:325-343 | a put-end succeeds only after one text message whose hash matched; a close is sent exactly when it is refused |
| WebSocketServer.UploadOfFacts | src/ws/Controllers/WebSocketController.cs:303-344 | a name designating a directory receives nothing and fails; a file that cannot be created changes nothing; otherwise it is rewritten with the bytes received, those of the first message; success means the put-end's hash matched them; at most one text is read and a close is sent exactly when the put-end is refused |
| WebSocketServer.UploadOfWrites | src/ws/Controllers/WebSocketController.cs:308-321 | a directory target writes no file, at most creates that directory, and fails; a file that cannot be created writes nothing and fails; a created one is written once, with the bytes received |
| WebSocketServer.UploadOfDirectory | src/ws/Controllers/WebSocketController.cs:306-310 | a name designating a directory receives nothing and fails: the directory then exists and every file is as it was, or a file in the way (or the volume root) throws and nothing changes |
| WebSocketServer.UploadsFacts | src/ws/Controllers/WebSocketController.cs:218-222 | a put reads no more results than there are, fails only with the exceptions a file can raise, and sends a close exactly when a put-end was refused, that close alone |
| WebSocketServer.UploadsStep | src/ws/Controllers/WebSocketController.cs:220-221 | the put from file i is that file and then, after its success, the put of the names after it |
| WebSocketServer.UploadsStop | src/ws/Controllers/WebSocketController.cs:220-221 | a file that fails ends the put in the state ReceiveFile left |
| WebSocketServer.UploadsGoOn | src/ws/Controllers/WebSocketController.cs:220-221 | a file that succeeds sent nothing, and the put goes on from its state at the next name, with its counts added |
| WebSocketServer.UploadsWriteInOrder | src/ws/Controllers/WebSocketController.cs:218-222 | the written targets are the first names' targets in order, none of them a directory, nothing written after the file that failed; on success every name's and no close |
| WebSocketServer.UploadsWriteAll | src/ws/Controllers/WebSocketController.cs:218-222 | the volume after a put is the successive writes of exactly the files it wrote, followed, when it stopped at a name designating a directory, by the creation of that directory |
| WebSocketServer.WriteAllKeeps | src/ws/Controllers/WebSocketController.cs:308-321 | writes to other paths keep a file as it was |
| WebSocketServer.WriteAllHolds | src/ws/Controllers/WebSocketController.cs:308-321 | a path written for the last time holds the bytes of that write |
| WebSocketServer.UploadsEffect | src/ws/Controllers/WebSocketController.cs:218-222 | after a put every file it wrote for the last time holds the bytes received for it, and every other file of the volume is as it was |
| WebSocketServer.PutSummary | src/ws/Controllers/WebSocketController.cs:218-222 | for the session: no more input than before, the only frame sent is the close of a refused put-end, and only the receive counters grow |
| WebSocketServer.Session.constructor | src/ws/Controllers/WebSocketController.cs:81-87 | the session starts at the root with nothing sent |
| WebSocketServer.Session.Receive | src/ws/Controllers/WebSocketController.cs:87 | the next result is taken from the input; a closed or exhausted peer is a WebSocketException |
| WebSocketServer.Session.SendText | src/ws/Controllers/WebSocketController.cs:108-119 | one text frame is appended and counted |
| WebSocketServer.Session.SendFile | src/ws/Controllers/WebSocketController.cs:259-289 | the file's frames, with the corrected end of message (the last frame ends it), and GetEnd are appended; one text and the file's bytes are counted |
| WebSocketServer.Session.SendFiles | src/ws/Controllers/WebSocketController.cs:257-290 | every file is sent in order, each with its corrected frames and GetEnd, and counted |
| WebSocketServer.Session.SendNext | src/ws/Controllers/WebSocketController.cs:259-289 | after file i the transfers, with corrected frames, of the first i+1 files are sent |
| WebSocketServer.Session.ReceiveData | src/ws/Controllers/WebSocketController.cs:313-320 | results are taken up to the first that ends the message, and their bytes counted and collected |
| WebSocketServer.Session.CheckPutEnd | src/ws/Controllers/WebSocketController.cs:325-343 | an incomplete put-end closes with PolicyViolation; a wrong hash closes with InvalidPayloadData; both then throw |
| WebSocketServer.Session.ReceiveFile | src/ws/Controllers/WebSocketController.cs:303-344 | a target that is a directory is created and then fails to open, receiving nothing; otherwise the file is created before anything is received, then holds exactly the received bytes (the corrected PutContent) |
| WebSocketServer.Session.Motd | src/ws/Controllers/WebSocketController.cs:107-120 | one MotdReply with the current directory, the megabit limit and the counters so far |
| WebSocketServer.Session.ChangeDirectory | src/ws/Controllers/WebSocketController.cs:122-147 | the move and the reply Cd describes |
| WebSocketServer.Session.List | src/ws/Controllers/WebSocketController.cs:149-177 | the listing of the current directory is sent |
| WebSocketServer.Session.Get | src/ws/Controllers/WebSocketController.cs:179-216 | with no qualifying file one Error; otherwise the reply listing the selection and then each file's transfer, with corrected frames, in order |
| WebSocketServer.Session.SendSelection | src/ws/Controllers/WebSocketController.cs:193-215 | the get reply, then all the files' transfers with corrected frames |
| WebSocketServer.Session.Put | src/ws/Controllers/WebSocketController.cs:218-222 | the result, volume, remaining input and close state are those of Uploads: the files in order at their targets, the first failure ending the put; only the close of a refused put-end is sent; only the receive counters grow |
| WebSocketServer.Session.PutFiles | src/ws/Controllers/WebSocketController.cs:218-222 | the loop's result, volume, input and close state are Uploads' outcome, its closes appended to the frames sent and its counts added |
| WebSocketServer.Session.PutNext | src/ws/Controllers/WebSocketController.cs:220-221 | after file i a failure ends in the put's outcome; a success leaves, as the put's outcome, that of the names after i from the new state |
| WebSocketServer.Session.Unmapped | src/ws/Controllers/WebSocketController.cs:224-231 | one "is not mapped for handling" Error and the session goes on |
| WebSocketServer.Session.Dispatch | src/ws/Controllers/WebSocketController.cs:101-232 | motd and unmapped commands send their one reply; cd moves and replies as Cd says; ls sends the Listing; get sends the reply over GetEntries of the Selection and then its Transfers; put is Uploads; only put reads input or writes files, only cd moves the directory |
| WebSocketServer.Session.Step | src/ws/Controllers/WebSocketController.cs:89-247 | the peer's close is echoed; an incomplete text or any binary message closes with PolicyViolation; a failure stops the session |
| WebSocketServer.Session.Handle | src/ws/Controllers/WebSocketController.cs:81-248 | the current directory never leaves the root; a normal end sends a close last; counters never go down |
| DirectoryTree.FullNameAppend | src/ws/Controllers/WebSocketController.cs:203 | the full name of a path below another is the ancestor's full name followed by the rest |
| DirectoryTree.FullNameLonger | src/ws/Controllers/WebSocketController.cs:127 | a path's full name is longer than an ancestor's exactly when it is a proper descendant |
| DirectoryTree.Find | src/ws/Controllers/WebSocketController.cs:125-126 | a found index names a child with that name; -1 otherwise |
| DirectoryTree.FindFirst | src/ws/Controllers/WebSocketController.cs:126 | a name is found at or before any child that has it |
| DirectoryTree.FindSameNames | src/ws/Controllers/WebSocketController.cs:126 | a lookup depends only on the children's names |
| DirectoryTree.FindAppend | src/ws/Controllers/WebSocketController.cs:126 | a child appended under another name does not change what a name finds |
| DirectoryTree.FindAbsent | src/ws/Controllers/WebSocketController.cs:126 | when no child has the name, a child appended with it is found |
| DirectoryTree.LookupAppend | src/ws/Controllers/WebSocketController.cs:125-130 | looking up a joined path is looking up the rest from the first part's node |
| DirectoryTree.WriteIn | src/ws/Controllers/WebSocketController.cs:306-321 | a write fails only with IOException or UnauthorizedAccess |
| DirectoryTree.Write | src/ws/Controllers/WebSocketController.cs:306-321 | a successful write leaves the volume a directory of the same name; failures are a null parent, IOException or UnauthorizedAccess |
| DirectoryTree.WriteInFresh | src/ws/Controllers/WebSocketController.cs:306 | under a directory just created nothing is in the way |
| DirectoryTree.WriteInAnyBytes | src/ws/Controllers/WebSocketController.cs:306-321 | whether a write succeeds depends on the path, not the bytes |
| DirectoryTree.WriteAnyBytes | src/ws/Controllers/WebSocketController.cs:306-321 | whether a volume write succeeds depends on the path, not the bytes |
| DirectoryTree.WriteThenLookup | src/ws/Controllers/WebSocketController.cs:306-321 | after a write the path holds a file with exactly those bytes |
| DirectoryTree.WriteInThenLookup | src/ws/Controllers/WebSocketController.cs:306-321 | below the root, after a write the path holds exactly those bytes |
| DirectoryTree.WriteKeepsOtherFiles | src/ws/Controllers/WebSocketController.cs:306-321 | a write changes no file at any path not on its way |
| DirectoryTree.WriteInKeeps | src/ws/Controllers/WebSocketController.cs:306-321 | below the root, a write changes no other file |
| DirectoryTree.MakeDir | src/ws/Controllers/WebSocketController.cs:306 | CreateDirectory on a volume: it stays a directory of the same name; failures are a null parent or a file in the way (IOException) |
| DirectoryTree.MakeDirThenLookup | src/ws/Controllers/WebSocketController.cs:306 | after CreateDirectory the path names a directory |
| DirectoryTree.MakeDirKeepsFiles | src/ws/Controllers/WebSocketController.cs:306 | CreateDirectory changes no file |
| DirectoryTree.SumLengthsAppend | src/ws/Controllers/WebSocketController.cs:161 | the length sum distributes over concatenation |
| DirectoryTree.FilesBelowSize | src/ws/Controllers/WebSocketController.cs:161 | the length ls reports for a directory, the sum over every file beneath it, is the subtree's size |
| RequiresTokenFilter.FirstWithPrefixIsFirst | src/ws/Filters/RequiresTokenFilter.cs:37 | the first header value starting with "Token ", and none exactly when no value does |
| RequiresTokenFilter.LastPiece | src/ws/Filters/RequiresTokenFilter.cs:37 | the last piece of the split holds no blank |
| RequiresTokenFilter.LastPieceIsSuffix | src/ws/Filters/RequiresTokenFilter.cs:37 | the last piece is what follows the last blank, or the whole value when it has none |
| RequiresTokenFilter.LastPieceAfterBlank | src/ws/Filters/RequiresTokenFilter.cs:37 | splitting at the first blank leaves the last piece to the rest of the value |
| RequiresTokenFilter.OnAuthorization | src/ws/Filters/RequiresTokenFilter.cs:21-59 | the request passes exactly when the token is non-blank and equals the configured one; a null or blank token is "No token found."; any other is "Invalid token found." |
| RequiresTokenFilter.QueryTokenSupersedesHeader | src/ws/Filters/RequiresTokenFilter.cs:25-33 | a non-blank query token is the token, whatever the Authorization headers hold |
| RequiresTokenFilter.HeaderTokenIsLastPiece | src/ws/Filters/RequiresTokenFilter.cs:32-40 | without a usable query token, the token is the last blank-separated piece of the first "Token " header value |
| RequiresTokenFilter.HeaderTokenAccepted | src/ws/Filters/RequiresTokenFilter.cs:35-59 | a request with a matching "Token " header after another header passes |
| WebSocketProgram.AlphabetIsAlphanumeric | src/ws/Program.cs:62 | every one of the 62 characters is an ASCII letter or digit |
| WebSocketProgram.PasswordOf | src/ws/Program.cs:66-71 | one key character per random byte |
| WebSocketProgram.PasswordAt | src/ws/Program.cs:69 | key character i is the alphabet's character at byte i mod 62, so a letter or digit |
| WebSocketProgram.GeneratePassword | src/ws/Program.cs:60-72 | the loop builds the key of the 128 random bytes, 128 characters long |
| WebSocketProgram.ListenUrlInjective | src/ws/Program.cs:48 | the listen URL determines the host and the port |
| WebSocketClient.CommonNamePieces | src/tom/Commands/WebSocketClientCommand.cs:103 | exactly the comma-separated pieces of the subject that start with "CN=" |
| WebSocketClient.CommonName | src/tom/Commands/WebSocketClientCommand.cs:102-103 | the only exception it throws is InvalidOperationException, from Single over the CN pieces |
| WebSocketClient.CertificateCallback | src/tom/Commands/WebSocketClientCommand.cs:69-120 | no policy errors always accept; an exception is possible only with a subject name set and a name mismatch alone |
| WebSocketClient.CertificateAccepted | src/tom/Commands/WebSocketClientCommand.cs:124-139 | without a subject name or thumbprint the platform accepts exactly the certificates without errors; otherwise the callback decides |
| WebSocketClient.SubjectNameRejectsOtherErrors | src/tom/Commands/WebSocketClientCommand.cs:82-97 | with a subject name, chain errors or any bit other than a name mismatch reject |
| WebSocketClient.SubjectNameDecidesMismatch | src/tom/Commands/WebSocketClientCommand.cs:99-115 | with a subject name and only a name mismatch, acceptance is exactly the single CN equalling the subject name ignoring case |
| WebSocketClient.SubjectNameIgnoresThumbprint | src/tom/Commands/WebSocketClientCommand.cs:77-116 | with a subject name set the thumbprint is never consulted |
| WebSocketClient.ThumbprintDecides | src/tom/Commands/WebSocketClientCommand.cs:118-119 | with a blank subject name and some error, acceptance is exactly the thumbprint equalling the certificate hash ignoring case |
| WebSocketClient.SplitTwo | src/tom/Commands/WebSocketClientCommand.cs:103 | two separator-free pieces joined by the separator split back into them |
| WebSocketClient.CommonNameMustLead | src/tom/Commands/WebSocketClientCommand.cs:103 | a CN after ", " keeps its leading blank and is not found, so Single throws |
| WebSocketClient.LeadingCommonName | src/tom/Commands/WebSocketClientCommand.cs:103 | a leading "CN=" piece is found, its prefix removed and its text trimmed |
| WebSocketClient.PingBase | src/tom/Commands/WebSocketClientCommand.cs:143 | a scheme starting with "ws" becomes "http" followed by the rest; everything else is kept |
| WebSocketClient.PingBaseIsTextRewrite | src/tom/Commands/WebSocketClientCommand.cs:143 | the rewrite on the parts is "http" followed by AbsoluteUri from its third character |
| WebSocketClient.PingSchemes | src/tom/Commands/WebSocketClientCommand.cs:143 | ws becomes http, wss becomes https, and http or https is used as it is |
| WebSocketClient.PingAddressParts | src/tom/Commands/WebSocketClientCommand.cs:146 | the ping address keeps the base's scheme and authority, takes the path directory followed by "ws/ping", and has no query |
| WebSocketClient.Directory | src/tom/Commands/WebSocketClientCommand.cs:146 | the merge keeps the path up to and including its last '/' |
| WebSocketClient.PingReplacesLastSegment | src/tom/Commands/WebSocketClientCommand.cs:146 | an endpoint path's last segment is replaced by "ws/ping", not extended |
| WebSocketClient.PingChecked | src/tom/Commands/WebSocketClientCommand.cs:147-150 | only 204 No Content goes on; any other status throws InvalidOperationException |
| WebSocketClient.NonEmptyTrimmed | src/tom/Commands/WebSocketClientCommand.cs:209 | trimming and dropping empty pieces never gives more pieces than were split |
| WebSocketClient.TrimInside | src/tom/Commands/WebSocketClientCommand.cs:209 | a trimmed piece is a slice of the piece |
| WebSocketClient.TokensAreWords | src/tom/Commands/WebSocketClientCommand.cs:209 | every token is non-empty and holds no blank |
| WebSocketClient.SplitJoin | src/tom/Commands/WebSocketClientCommand.cs:209 | words joined by blanks split back into the words |
| WebSocketClient.TrimWord | src/tom/Commands/WebSocketClientCommand.cs:209 | trimming a word leaves it unchanged |
| WebSocketClient.NonEmptyTrimmedWords | src/tom/Commands/WebSocketClientCommand.cs:209 | words survive the trim-and-drop step unchanged |
| WebSocketClient.TokensOfWords | src/tom/Commands/WebSocketClientCommand.cs:209 | a line typed as words tokenizes to exactly those words |
| WebSocketClient.InterpretWords | src/tom/Commands/WebSocketClientCommand.cs:209-239 | a line of words is read by its lower-cased first word and, for cd, its last word |
| WebSocketClient.InterpretIgnoresCase | src/tom/Commands/WebSocketClientCommand.cs:211 | the command word is read without regard to case |
| WebSocketClient.LoneCdTargetsItself | src/tom/Commands/WebSocketClientCommand.cs:213-214 | a lone "cd" asks to change into a directory named "cd" |
| WebSocketClient.ReplyText | src/tom/Commands/WebSocketClientCommand.cs:247-255 | the next reply's text, or a WebSocketException or NotImplementedException |
| WebSocketClient.Rest | src/tom/Commands/WebSocketClientCommand.cs:248 | one receive consumes at least one result unless none is left |
| WebSocketClient.Decoded | src/tom/Commands/WebSocketClientCommand.cs:248-256 | the reply decoded, failing only with a WebSocketException, a NotImplementedException or a JsonException |
| WebSocketClient.CurrentDirectoryOf | src/tom/Commands/WebSocketClientCommand.cs:224-225 | motd and ls replies give a directory; any other throws ArgumentNullException |
| WebSocketClient.AfterCd | src/tom/Commands/WebSocketClientCommand.cs:214-215 | the remote path changes only to an ls reply's directory |
| WebSocketClient.AfterLs | src/tom/Commands/WebSocketClientCommand.cs:293-300 | an ls reply gives its directory; any other reply throws ArgumentNullException |
| WebSocketClient.RequestFor | src/tom/Commands/WebSocketClientCommand.cs:245-305 | an action that asks the server sends a cd, ls or motd request |
| WebSocketClient.RequestSent | src/tom/Commands/WebSocketClientCommand.cs:245-252 | one request, plus the PolicyViolation close when its reply is cut short, keeps the request-run shape |
| WebSocketClient.RequestsJoin | src/tom/Commands/WebSocketClientCommand.cs:206-240 | the requests of consecutive passes form one run of requests |
| WebSocketClient.Client.constructor | src/tom/Commands/WebSocketClientCommand.cs:60-64 | the session starts with nothing sent or shown |
| WebSocketClient.Client.Prompt | src/tom/Commands/WebSocketClientCommand.cs:173-185 | shows the remote path, then consumes lines up to the first one non-empty once trimmed and returns it trimmed; none such leaves no input |
| WebSocketClient.Client.Exchange | src/tom/Commands/WebSocketClientCommand.cs:245-253 | one request sent, one reply consumed, and a PolicyViolation close when it is cut short |
| WebSocketClient.Client.Ask | src/tom/Commands/WebSocketClientCommand.cs:245-256 | the exchange followed by decoding the reply |
| WebSocketClient.Client.SendCd | src/tom/Commands/WebSocketClientCommand.cs:243-279 | sends the cd request; the remote path becomes an ls reply's directory, otherwise stays |
| WebSocketClient.Client.SendLs | src/tom/Commands/WebSocketClientCommand.cs:281-301 | sends the ls request; the remote path becomes the reply's directory |
| WebSocketClient.Client.SendMotd | src/tom/Commands/WebSocketClientCommand.cs:303-320 | sends the motd request, consumes one reply, and shows the status exactly when the reply decodes |
| WebSocketClient.Client.AskServer | src/tom/Commands/WebSocketClientCommand.cs:213-226 | the action's request is sent; a decoding failure is passed on; otherwise the remote path follows the reply |
| WebSocketClient.Client.Step | src/tom/Commands/WebSocketClientCommand.cs:209-239 | stops exactly on quit or an exception; help and uninterpretable input send nothing; server actions send their request |
| WebSocketClient.Client.MessageLoop | src/tom/Commands/WebSocketClientCommand.cs:187-241 | shows the help first; sends only requests, plus a last PolicyViolation close when a reply was cut short |
| WebSocketClient.Client.Run | src/tom/Commands/WebSocketClientCommand.cs:142-170 | a ping other than 204 throws InvalidOperationException before anything is sent; otherwise motd is sent first and, on success, ls second |
| Throttling.ToInt32 | src/util/IO/ThrottledStream.cs:182 | the int cast keeps values in the int range and leaves them unchanged there |
| Throttling.Overwrite | src/util/IO/ThrottledStream.cs:147-152 | the base stream after a write: the bytes sit at the position and the length grows only past the end |
| Throttling.OverwriteKeeps | src/util/IO/ThrottledStream.cs:147-152 | a write keeps every byte outside the written range |
| Throttling.ByteStream.Available | src/util/IO/ThrottledStream.cs:133-138 | a read returns at most the requested count and never reads past the end |
| Throttling.ByteStream.Read | src/util/IO/ThrottledStream.cs:137 | the base read copies the available bytes from the position into the buffer at offset, touching nothing else, and advances the position |
| Throttling.ByteStream.Write | src/util/IO/ThrottledStream.cs:151 | the base write overwrites at the position and advances it by the count |
| Throttling.ByteStream.Seek | src/util/IO/ThrottledStream.cs:141 | the target is relative to the origin; before the start it is an IOException and the position stays |
| Throttling.ByteStream.SetPosition | src/util/IO/ThrottledStream.cs:95 | a negative position is an ArgumentOutOfRangeException; otherwise it is set |
| Throttling.WakeElapsedIsDueTime | src/util/IO/ThrottledStream.cs:181 | the wake time is the last whole millisecond at which the bytes so far are within the limit |
| Throttling.SleepFor | src/util/IO/ThrottledStream.cs:161-201 | a sleep, when there is one, is longer than one millisecond |
| Throttling.SleepOnlyOverLimit | src/util/IO/ThrottledStream.cs:164-189 | a sleep happens only with a positive limit and size, past time and a rate above the limit, and then lasts until the bytes' due time |
| Throttling.ThrottledStream.Create | src/util/IO/ThrottledStream.cs:116-127 | a negative limit is an ArgumentOutOfRangeException, then a null stream an ArgumentNullException; otherwise a fresh stream with an empty window starting now |
| Throttling.ThrottledStream.Reset | src/util/IO/ThrottledStream.cs:206-216 | the window restarts now exactly when more than a second of it has passed; otherwise nothing changes |
| Throttling.ThrottledStream.SetMaximumBytesPerSecond | src/util/IO/ThrottledStream.cs:46-57 | the new limit is stored; a different value resets the window, the same value changes nothing |
| Throttling.ThrottledStream.Throttle | src/util/IO/ThrottledStream.cs:161-201 | the requested sleep is SleepFor; nothing changes without a positive limit and size; the count grows by the size; after a sleep the window resets when a second has passed |
| Throttling.ThrottledStream.Read | src/util/IO/ThrottledStream.cs:133-138 | throttled on the count, then exactly the base stream's read |
| Throttling.ThrottledStream.Write | src/util/IO/ThrottledStream.cs:147-152 | throttled on the count, then exactly the base stream's write |
| Throttling.ThrottledStream.Seek | src/util/IO/ThrottledStream.cs:141 | passes through to the base stream without throttling |
| Throttling.ThrottledStream.SetPosition | src/util/IO/ThrottledStream.cs:92-96 | passes through to the base stream |
| Crc32.Table | src/util/Hashing/Crc32.cs:96-113 | 256 entries; entry i is i after eight right shifts, XORing the polynomial whenever the low bit was 1 |
| Crc32.ComputeEntry | src/util/Hashing/Crc32.cs:99-112 | the inner loop leaves exactly the table entry for i |
| Crc32.ShiftStep | src/util/Hashing/Crc32.cs:102-109 | one shift step: XOR after the shift exactly when the low bit was set |
| Crc32.TableCache.InitializeTable | src/util/Hashing/Crc32.cs:89-121 | the cached default table is returned when present; otherwise a fresh 256-entry table equal to the specification, stored in the cache when the polynomial is the default |
| Crc32.TableCache.constructor | src/util/Hashing/Crc32.cs:33 | the static cache starts empty |
| Crc32.UpdateIndex | src/util/Hashing/Crc32.cs:128 | the table index `b ^ (crc & 0xff)` always lies in 0..255 |
| Crc32.UpdateByte | src/util/Hashing/Crc32.cs:128 | one loop body is one byte update of the running value |
| Crc32.FoldAppend | src/util/Hashing/Crc32.cs:123-132 | feeding a and then b gives the same running value as feeding a ++ b |
| Crc32.CalculateHashAsWritten | src/util/Hashing/Crc32.cs:123-132 | as written: folds buffer[start..size - start], the bytes the loop bound `size - start` reaches |
| Crc32.AsWrittenSkipsBytes | src/util/Hashing/Crc32.cs:126 | with start 1 and size 2 the written loop reads no byte although two were asked for |
| Crc32.AsWrittenDiffers | src/util/Hashing/Crc32.cs:126 | for that input the result differs: two 0xFF bytes move the default seed |
| Crc32.AsWrittenAgreesAtZero | src/util/Hashing/Crc32.cs:126 | at start 0 the written bound and the intended bound coincide |
| Crc32.CalculateHash | src/util/Hashing/Crc32.cs:123-132 | corrected: folds exactly buffer[start..start + size] from the seed |
| Crc32.Reverse | src/util/Hashing/Crc32.cs:140 | Array.Reverse: same length, element i is element n-1-i |
| Crc32.UInt32ToBigEndianBytes | src/util/Hashing/Crc32.cs:134-144 | four bytes |
| Crc32.BigEndianRoundTrip | src/util/Hashing/Crc32.cs:134-144 | the bytes are most significant first and reading them back gives the value |
| Crc32.Crc32.constructor | src/util/Hashing/Crc32.cs:50-54 | the table for the polynomial, seed and running value both set to the seed |
| Crc32.Crc32.Default | src/util/Hashing/Crc32.cs:42-45 | default polynomial 0xEDB88320 and seed 0xFFFFFFFF |
| Crc32.Crc32.Initialize | src/util/Hashing/Crc32.cs:59-60 | the running value is reset to the seed |
| Crc32.Crc32.HashCore | src/util/Hashing/Crc32.cs:71-72 | the running value advances over buffer[start..start + length], with the corrected loop bound |
| Crc32.Crc32.HashFinal | src/util/Hashing/Crc32.cs:77-82 | the complement of the running value as 4 big-endian bytes |
| Crc32.ChecksumOfChunks | src/util/Hashing/Crc32.cs:71-82 | hashing in two HashCore calls gives the checksum of the concatenation |
| Blockhash.PackBitsAt | src/util/Hashing/Blockhash.cs:70-78 | byte k of the packing is bits 8k..8k+7, most significant first |
| Blockhash.PackByteIsHorner | src/util/Hashing/Blockhash.cs:70-78 | the shifted sum of eight bit values is their binary number |
| Blockhash.UnpackPackByte | src/util/Hashing/Blockhash.cs:70-78 | unpacking a packed byte gives back its eight bit values |
| Blockhash.UnpackPackBits | src/util/Hashing/Blockhash.cs:65-82 | packing bit values and unpacking the bytes gives the bits back |
| Blockhash.PackAt | src/util/Hashing/Blockhash.cs:70-78 | the loop body builds the packing of bits i..i+7 |
| Blockhash.BitsToBytes | src/util/Hashing/Blockhash.cs:65-82 | bits.Length / 8 bytes equal to the packing; a bit count not divisible by 8 reads past the end and fails |
| Blockhash.PixelValue | src/util/Hashing/Blockhash.cs:108-116 | 765 for a fully transparent pixel, else red + green + blue, so always in 0..765 |
| Blockhash.PixelIndexInRange | src/util/Hashing/Blockhash.cs:106 | every byte offset the quick loops read lies inside the RGBA data |
| Blockhash.BlockValuesAt | src/util/Hashing/Blockhash.cs:96-122 | block (x, y) is stored at index y * bits + x and holds the sum over its pixels |
| Blockhash.BlockValuesBounded | src/util/Hashing/Blockhash.cs:96-122 | each block value is between 0 and 765 times the pixels of a block |
| Blockhash.BlockValue | src/util/Hashing/Blockhash.cs:100-118 | the two inner loops compute the block's sum |
| Blockhash.AddRow | src/util/Hashing/Blockhash.cs:104-117 | the innermost loop adds the row's pixel values |
| Blockhash.PixelAt | src/util/Hashing/Blockhash.cs:106-116 | one pixel's contribution is its pixel value |
| Blockhash.QuickBlocks | src/util/Hashing/Blockhash.cs:92-122 | a fresh array of bits*bits block values in row-major order |
| Blockhash.BitOf | src/util/Hashing/Blockhash.cs:222-223 | 1 exactly when the block is above the median, or equal to a median above half the block value; always 0 or 1 |
| Blockhash.BandMedian | src/util/Hashing/Blockhash.cs:219 | the band median truncated to int; an empty band fails as Median does |
| Blockhash.Translated | src/util/Hashing/Blockhash.cs:206-227 | fails exactly when a band is empty, with the Median message; otherwise keeps the block count |
| Blockhash.TranslatedAllBits | src/util/Hashing/Blockhash.cs:206-227 | with a block count divisible by 4 and at least 4, every output value is 0 or 1 |
| Blockhash.TranslatedBit | src/util/Hashing/Blockhash.cs:216-225 | a block of band i becomes 1 exactly when above the band's median, or equal to a median above half the block value |
| Blockhash.BandOfPrefix | src/util/Hashing/Blockhash.cs:218 | a band is copied out before any of its blocks is overwritten, so its median is that of the original values |
| Blockhash.TranslateBand | src/util/Hashing/Blockhash.cs:220-224 | the blocks of band i are compared with m and nothing outside the band changes |
| Blockhash.TranslateOneBand | src/util/Hashing/Blockhash.cs:218-224 | after band i the first i+1 bands are translated and the rest untouched |
| Blockhash.TranslatedFromBands | src/util/Hashing/Blockhash.cs:216-226 | once the four bands are done, the array is the translation |
| Blockhash.TranslateBlocksToBits | src/util/Hashing/Blockhash.cs:206-227 | the in-place algorithm leaves exactly the translation of the original values, or fails as Median does |
| Blockhash.Quick | src/util/Hashing/Blockhash.cs:84-125 | on success, bits*bits values |
| Blockhash.BlockhashQuick | src/util/Hashing/Blockhash.cs:84-125 | the array method computes the quick hash of the data, failing exactly when it does |
| Blockhash.BlockhashFull | src/util/Hashing/Blockhash.cs:140-143 | when width and height are both divisible by bits the result is the quick hash |
| Blockhash.ProcessImage | src/util/Hashing/Blockhash.cs:271-284 | the selected path followed by the bit packing |
| Blockhash.DefaultHashSize | src/util/Hashing/Blockhash.cs:257-284 | with 16 bits on the integer path the hash is 32 bytes, which is the 256 bits HashSize states |
| Blockhash.DefaultHashUnpacks | src/util/Hashing/Blockhash.cs:280-283 | unpacking a default hash's 32 bytes gives the 256 block bits back |
| Blockhash.ByteDistanceZero | src/util/Hashing/Blockhash.cs:302-310 | two bytes differ in no bit exactly when they are equal |
| Blockhash.Distance | src/util/Hashing/Blockhash.cs:299-313 | between 0 and 8 times the length |
| Blockhash.DistanceSymmetric | src/util/Hashing/Blockhash.cs:299-313 | the distance does not depend on the order of the arguments |
| Blockhash.DistanceZeroIffEqual | src/util/Hashing/Blockhash.cs:299-313 | the distance is 0 exactly when the arrays are equal |
| Blockhash.CountBits | src/util/Hashing/Blockhash.cs:303-310 | the eight shifted bits add up to the number of set bits |
| Blockhash.HammingDistance | src/util/Hashing/Blockhash.cs:289-314 | unequal lengths throw ArgumentException with its message; otherwise the number of differing bit positions |
| EnumerableExtensions.BitConverterHex | src/util/Extensions/EnumerableExtensions.cs:25 | two upper-case hex digits per byte, dashes removed |
| EnumerableExtensions.ToLowercaseHash | src/util/Extensions/EnumerableExtensions.cs:22-26 | two characters per byte |
| EnumerableExtensions.LowercaseHashCons | src/util/Extensions/EnumerableExtensions.cs:22-26 | the rendering is the first byte's digit pair followed by the rendering of the rest |
| EnumerableExtensions.LowercaseHashAt | src/util/Extensions/EnumerableExtensions.cs:22-26 | byte i is rendered at characters 2i and 2i+1, high nibble first |
| EnumerableExtensions.LowercaseHashDigits | src/util/Extensions/EnumerableExtensions.cs:22-26 | every character is one of 0-9 or a-f |
| EnumerableExtensions.HexValue | src/util/Extensions/EnumerableExtensions.cs:22-26 | the value of a hex digit of either case is below 16; any other character gives -1 |
| EnumerableExtensions.ParseHex | src/util/Extensions/EnumerableExtensions.cs:22-26 | a parse yields one byte per two characters |
| EnumerableExtensions.ParsePair | src/util/Extensions/EnumerableExtensions.cs:22-26 | a leading lower-case digit pair parses to its byte, followed by the parse of the rest |
| EnumerableExtensions.LowerDigitValue | src/util/Extensions/EnumerableExtensions.cs:22-26 | a lower-case digit reads back as its value |
| EnumerableExtensions.ParseLowercaseHash | src/util/Extensions/EnumerableExtensions.cs:22-26 | parsing the rendering gives back the bytes |
| EnumerableExtensions.ToLowercaseHashInjective | src/util/Extensions/EnumerableExtensions.cs:22-26 | distinct byte arrays have distinct renderings |
| EnumerableExtensions.HexCasesAgree | src/util/Extensions/EnumerableExtensions.cs:22-26 | the BitConverter rendering and Convert.ToHexStringLower agree once case is ignored |
| EnumerableExtensions.IntLeIsOrder | src/util/Extensions/EnumerableExtensions.cs:39 | the integer order OrderBy uses is total and antisymmetric |
| EnumerableExtensions.SortedInts | src/util/Extensions/EnumerableExtensions.cs:39 | ordering the integers gives an ascending permutation of them |
| EnumerableExtensions.SortIntPermutation | src/util/Extensions/EnumerableExtensions.cs:39 | two orderings of the same integers sort to the same sequence |
| EnumerableExtensions.Median | src/util/Extensions/EnumerableExtensions.cs:31-50 | fails exactly on an empty input, with the message "No elements to median-ize" |
| EnumerableExtensions.MedianOfSorted | src/util/Extensions/EnumerableExtensions.cs:41-49 | the selection fails only for no elements |
| EnumerableExtensions.MedianOfOddCount | src/util/Extensions/EnumerableExtensions.cs:46-49 | an odd count selects the middle sorted element |
| EnumerableExtensions.MedianOfEvenCount | src/util/Extensions/EnumerableExtensions.cs:42-45 | an even count selects the mean of the two middle sorted elements |
| EnumerableExtensions.SortCounts | src/util/Extensions/EnumerableExtensions.cs:39-48 | sorted element i has at least i+1 input elements at or below it and at least n-i at or above it |
| EnumerableExtensions.SortedElement | src/util/Extensions/EnumerableExtensions.cs:39-48 | every sorted element is an input element |
| EnumerableExtensions.MedianOdd | src/util/Extensions/EnumerableExtensions.cs:31-50 | for an odd count, the median is an input element with more than half of the input at or below it and more than half at or above it |
| EnumerableExtensions.MedianEven | src/util/Extensions/EnumerableExtensions.cs:31-50 | for an even count, the median is the mean of input elements lo <= hi with at least half the input at or below lo and at least half at or above hi |
| EnumerableExtensions.MedianOrderIndependent | src/util/Extensions/EnumerableExtensions.cs:31-50 | reordering the input does not change the median |
| EnumerableExtensions.Count | src/util/Extensions/EnumerableExtensions.cs:33 | a count never exceeds the length |
| EnumerableExtensions.CountPermutation | src/util/Extensions/EnumerableExtensions.cs:33-39 | permuted inputs have the same counts |
| EnumerableExtensions.TruncateToInt | src/util/Hashing/Blockhash.cs:219 | the cast of a double to int truncates toward zero |
| EnumerableExtensions.Swap | src/util/Extensions/EnumerableExtensions.cs:62 | the tuple assignment exchanges the two positions: same length and multiset, nothing else moves |
| EnumerableExtensions.Shuffled | src/util/Extensions/EnumerableExtensions.cs:57-63 | the shuffle keeps the multiset and leaves the positions it has placed unchanged |
| EnumerableExtensions.Shuffle | src/util/Extensions/EnumerableExtensions.cs:55-64 | the in-place loop leaves the function's shuffle of the old contents, a permutation of them |
| TomExtensions.Median | src/tom/Extensions.cs:13-32 | fails exactly on an empty input, with the message "No elements to median-ize" |
| TomExtensions.MedianOdd | src/tom/Extensions.cs:13-32 | for an odd count, the median is an input element with more than half of the input at or below it and more than half at or above it |
| TomExtensions.MedianEven | src/tom/Extensions.cs:13-32 | for an even count, the median is the mean of two input elements lo <= hi with at least half the input on each side |
| TomExtensions.MedianOrderIndependent | src/tom/Extensions.cs:13-32 | reordering the input does not change the median |
| Output.DetermineColumnWidthFromName | src/util/Output.cs:157-171 | 6 for "price" and 8 for "total" in any case, else 4, raised to the name's length; so at least 4 and at least the name |
| Output.InitialWidths | src/util/Output.cs:40 | one starting width per property, each its name's width |
| Output.SumUpdate | src/util/Output.cs:52 | changing one width changes the sum by the difference |
| Output.WidenStep | src/util/Output.cs:52-77 | only column j changes and never shrinks; a table already over the buffer is left alone |
| Output.WidenCells | src/util/Output.cs:45-78 | one row's cells never shrink a column, and a table within the buffer stays within it |
| Output.WidenRows | src/util/Output.cs:42-79 | all rows' cells never shrink a column, and a table within the buffer stays within it |
| Output.ColumnWidths | src/util/Output.cs:40-79 | one width per property, never narrower than 4 or than the property's name |
| Output.OverBudgetKeepsNameWidths | src/util/Output.cs:52-57 | when the names alone exceed the buffer, every column keeps its name width |
| Output.WidenColumn | src/util/Output.cs:52-77 | the array update is one widening step |
| Output.WidenRow | src/util/Output.cs:45-78 | the inner loop performs the row's widening steps |
| Output.ComputeColumnWidths | src/util/Output.cs:40-79 | the loops leave a fresh array holding the column widths |
| Output.Chunk | src/tests/UtilTests/StringExtensionTests.cs:8-14 | no chunks exactly for an empty string |
| Output.ChunkPieces | src/tests/UtilTests/StringExtensionTests.cs:8-14 | the chunks concatenate to the string; all but the last have n characters; none is empty |
| Output.ChunkCount | src/util/Output.cs:109-125 | a cell gets ceil(length / n) chunks |
| Output.IndentStep | src/util/Output.cs:119 | the indentation of column j+1 is that of column j plus its width and one divider |
| Output.ColumnsLength | src/util/Output.cs:85-89 | a line of laid-out columns is as long as their widths plus one divider each |
| Output.ColumnsAt | src/util/Output.cs:85-89 | piece j sits at column j's indentation and is followed by a blank |
| Output.HeaderPieces | src/util/Output.cs:87 | header piece j is the name padded to its width |
| Output.Dashes | src/util/Output.cs:95 | a dash piece is as long as its width |
| Output.DashPieces | src/util/Output.cs:95 | dash piece j has column j's width |
| Output.HeaderRowAt | src/util/Output.cs:84-90 | column j of the header row holds the name padded to the width, then a blank |
| Output.DashRowAt | src/util/Output.cs:92-98 | column j of the second row holds width-many dashes, then a blank |
| Output.CellText | src/util/Output.cs:106-133 | a cell's main-line text is exactly as wide as its column |
| Output.ChunkTexts | src/util/Output.cs:114-125 | one continuation text per chunk |
| Output.AddChunk | src/util/Output.cs:116-124 | chunk r lands on continuation line r-1, which exists afterwards |
| Output.AddChunks | src/util/Output.cs:114-125 | after chunks 1..k-1 at least k-1 continuation lines exist |
| Output.AddChunksExtends | src/util/Output.cs:114-125 | existing continuation lines are only extended, and new ones start with the column's indentation |
| Output.PadWrapped | src/util/Output.cs:136-141 | a fitting cell pads every existing continuation line and adds none |
| Output.NewLines | src/util/Output.cs:106-142 | after a column the row has as many continuation lines as the larger of before and the column's need |
| Output.NewLinesExtend | src/util/Output.cs:106-142 | a column only extends the continuation lines, and those it adds start at its indentation |
| Output.FirstNeeding | src/util/Output.cs:116-120 | continuation line r was created by the first column needing more than r lines |
| Output.CellTexts | src/util/Output.cs:104-144 | the main-line texts of the first k cells |
| Output.RowLineIsColumns | src/util/Output.cs:104-144 | a row's main line is its cell texts laid out in the columns |
| Output.RowLineAt | src/util/Output.cs:104-144 | column j of the main line holds the cell's text, exactly the column's width, then a blank |
| Output.RowLineLength | src/util/Output.cs:104-144 | the main line is as long as the header row |
| Output.WrappedCount | src/util/Output.cs:104-144 | a row has as many continuation lines as its most-wrapped cell needs |
| Output.WrappedIndent | src/util/Output.cs:116-120 | continuation line r starts with the indentation of the first column that needed it |
| Output.AppendChunk | src/util/Output.cs:116-124 | the builder-list update is one chunk placement |
| Output.WrapCell | src/util/Output.cs:114-125 | the chunk loop places all chunks after the first |
| Output.PadCells | src/util/Output.cs:137-141 | the padding loop pads every continuation builder |
| Output.FormatRow | src/util/Output.cs:103-144 | the column loop builds the row's main line and continuation lines |
| Output.RowStep | src/util/Output.cs:104-144 | one more column appends its text to the main line and its chunks or blanks to the continuation lines |
| Output.FormatCell | src/util/Output.cs:106-142 | one column-loop pass appends the cell's text and updates the continuation lines |
| Output.FirstMissing | src/util/Output.cs:31-37 | the index of the first property name the type lacks; all earlier names exist |
| Output.FindMissing | src/util/Output.cs:31-37 | the validation loop finds the first unknown property name |
| Output.FirstMissingIsFirst | src/util/Output.cs:31-37 | any index with all earlier names present and this one missing (or past the end) is the first missing one |
| Output.AppendLines | src/util/Output.cs:148-151 | each continuation line is appended followed by a line break |
| Output.WriteRow | src/util/Output.cs:101-151 | a row is written as its main line and then each continuation line |
| Output.WriteRows | src/util/Output.cs:101-152 | the row loop appends the text of all rows |
| Output.BodyTextStep | src/util/Output.cs:101-152 | the body of n+1 rows is that of n rows followed by row n's lines |
| Output.WriteTable | src/util/Output.cs:24-155 | fails exactly when some property name is unknown, naming the first; a null source is an empty table; otherwise header, dashes, then the rows |
| ProgressLogging.RowName | src/util/Logging/ConsoleFileProgressLogger.cs:192-197 | the printed name is at most 42 characters |
| ProgressLogging.RowNameTail | src/util/Logging/ConsoleFileProgressLogger.cs:194-197 | a short name is unchanged; a long one is "..." followed by its last 39 characters |
| ProgressLogging.RowNameWidth | src/util/Logging/ConsoleFileProgressLogger.cs:198-205 | the name column's width is clamped to 16..42 and unchanged inside that range |
| ProgressLogging.CompleteDashes | src/util/Logging/ConsoleFileProgressLogger.cs:211-220 | a failure, the ArgumentOutOfRange of a negative dash count, happens only for a negative progress |
| ProgressLogging.BarSplit | src/util/Logging/ConsoleFileProgressLogger.cs:210-226 | for a positive total the complete dashes are floor(42 * min(progress, total) / total), all 42 exactly when progress reaches the total |
| ProgressLogging.Units | src/util/Logging/ConsoleFileProgressLogger.cs:230-266 | the factor is at least 1; the count line has factor 1 and no unit |
| ProgressLogging.UnitsBracket | src/util/Logging/ConsoleFileProgressLogger.cs:233-257 | the unit is the largest power of 1024 up to 2^40 not above the total |
| ProgressLogging.AddLine | src/util/Logging/ConsoleFileProgressLogger.cs:179-356 | the bar's two parts fill 42 dashes unless over-complete; the name column is at least 16 wide; fails exactly when the dash count fails |
| ProgressLogging.RateFailsWithinASecond | src/util/Logging/ConsoleFileProgressLogger.cs:115-118 | the rate division throws exactly when less than one whole second separates the sample from now |
| ProgressLogging.WindowRate | src/util/Logging/ConsoleFileProgressLogger.cs:112-119 | no rate while the queue holds fewer samples than its window |
| ProgressLogging.Lookback | src/util/Logging/ConsoleFileProgressLogger.cs:113-115 | the oldest sample is dequeued once the window is reached; otherwise the queue is unchanged |
| ProgressLogging.LookbackBounded | src/util/Logging/ConsoleFileProgressLogger.cs:113-127 | a queue at or under its window stays at or under it after the dequeue and the enqueue |
| ProgressLogging.FinalRateAsWritten | src/util/Logging/ConsoleFileProgressLogger.cs:142-145 | the unguarded division fails exactly when under a second has elapsed |
| ProgressLogging.FinalUpdateWithinASecondThrows | src/util/Logging/ConsoleFileProgressLogger.cs:142-145 | completing half a second after construction divides by zero |
| ProgressLogging.FinalRate | src/util/Logging/ConsoleFileProgressLogger.cs:142-145 | the guarded rate exists exactly when the division is defined, and then equals it |
| ProgressLogging.ConsoleFileProgressLogger.constructor | src/util/Logging/ConsoleFileProgressLogger.cs:39-52 | keeps the name, the expected lengths and the count; the counters start at 0 |
| ProgressLogging.ConsoleFileProgressLogger.AddProgress | src/util/Logging/ConsoleFileProgressLogger.cs:57-63 | both byte counters grow by the value; the file number and name stay |
| ProgressLogging.ConsoleFileProgressLogger.ResetCurrentFile | src/util/Logging/ConsoleFileProgressLogger.cs:68-79 | the file number moves on only when a file was named; the current counters restart and its queue empties |
| ProgressLogging.ConsoleFileProgressLogger.MarkComplete | src/util/Logging/ConsoleFileProgressLogger.cs:84-91 | every counter is set to its expected value and the final update, with the guarded FinalRate, draws two lines for non-negative totals |
| ProgressLogging.ConsoleFileProgressLogger.UpdateConsole | src/util/Logging/ConsoleFileProgressLogger.cs:93-177 | skipped, changing nothing, exactly when not final and the interval has not passed; a final update, with the guarded FinalRate, leaves the file queue alone |
| ProgressLogging.ConsoleFileProgressLogger.DrawFileLine | src/util/Logging/ConsoleFileProgressLogger.cs:109-128 | the file line uses the rate from a full queue's oldest sample, then enqueues the new sample |
| ProgressLogging.ConsoleFileProgressLogger.DrawTotals | src/util/Logging/ConsoleFileProgressLogger.cs:130-160 | a non-final update keeps the total queue within its window; a final update with non-negative counters draws its lines with the guarded FinalRate |
| FileSystem.Combine | src/tom/Commands/HashRenameCommand.cs:96 | the combined path starts with the directory |
| FileSystem.CombineEndsWithName | src/tom/Commands/HashRenameCommand.cs:102 | the combined path ends with the name |
| FileSystem.Extension | src/tom/Commands/HashRenameCommand.cs:77 | a suffix of the name, empty or a dot followed by at least one character and no further dot |
| FileSystem.Stem | tom.hash-rename/Program.cs:74 | the stem followed by the extension is the name |
| FileSystem.ExtensionOfStemAndExtension | src/tom/Commands/HashRenameCommand.cs:77 | a dot-free stem followed by a proper extension has that extension |
| FileSystem.TotalBytesStep | src/tom/Commands/HashRenameCommand.cs:58 | one more listed file adds its length to the total |
| FileSystem.Percent | src/tom/Commands/HashRenameCommand.cs:83 | the progress division throws DivideByZero exactly when the total is 0 |
| FileSystem.TakenShrinks | src/tom/Commands/HashRenameCommand.cs:96-99 | each collision leaves strictly fewer taken candidates, so the loop ends |
| FileSystem.FirstFree | src/tom/Commands/HashRenameCommand.cs:95-99 | the loop stops at the first candidate that names no file, all earlier ones being taken |
| FileSystem.Volume.MoveTo | src/tom/Commands/HashRenameCommand.cs:104 | a missing source throws FileNotFound, an existing destination IOException, both changing nothing; otherwise the bytes move to the destination |
| FileSystem.Volume.Delete | tom.hash-hl/Program.cs:61 | the path no longer names a file and nothing else changes |
| FileSystem.VisitKeeps | src/tom/Commands/HashRenameCommand.cs:69-105 | a turn that changes only its own file keeps the files after it untouched, and on its first visit the file still had its listed bytes |
| FileSystem.UntouchedUnlisted | src/tom/Commands/HashRenameCommand.cs:51-55 | files never listed keep their bytes when the listed files not yet visited do |
| FileSystem.DistinctUnvisited | src/tom/Commands/HashRenameCommand.cs:69 | in a listing without repeats, the next file and those after it still hold their listed bytes, and the next is not listed again |
| FileSystem.PlacedStep | src/tom/Commands/HashRenameCommand.cs:101-104 | a turn that leaves its file in place or moves it to a free place puts it there with its listed bytes, and the files placed before stay put |
| FileSystem.PlacedAside | src/tom/Commands/ImageDuplicateBlockhashCommand.cs:74-118 | a turn that moves its file to a free place without recording it keeps the files placed before where they were |
| HashRenaming.HashName | src/tom/Commands/HashRenameCommand.cs:73-76 | the commands and the legacy command lowercase the computed hash; the standalone program uses it as computed |
| HashRenaming.Marker | src/tom/Commands/HashRenameCommand.cs:95-99 | the first try adds nothing between hash and extension, every later try adds a marker |
| HashRenaming.MarkerInjective | src/tom/Commands/HashRenameCommand.cs:98 | different try numbers give different markers |
| HashRenaming.Middle | src/tom/Commands/HashRenameCommand.cs:98 | two names with the same hash prefix and extension suffix are equal only with equal markers |
| HashRenaming.CandidateInjective | src/tom/Commands/HashRenameCommand.cs:95-99 | no two tries propose the same name, so the collision loop reaches a free name |
| HashRenaming.CandidateKeepsExtension | src/tom/Commands/HashRenameCommand.cs:77-98 | a renamed file keeps its extension when the hash has no dot |
| HashRenaming.FirstTryIsKeptNextRun | src/tom/Commands/HashRenameCommand.cs:88-92 | a file named by the first try is left alone by the next run over the same bytes |
| HashRenaming.LaterTryIsMovedNextRun | src/tom/Commands/HashRenameCommand.cs:88-99 | a file named by a later try is moved again by the next run |
| HashRenaming.RenameFile | src/tom/Commands/HashRenameCommand.cs:71-104 | a missing file fails with FileNotFound and changes nothing; a file is kept exactly when it already has its name, and then nothing changes |
| HashRenaming.Turn | src/tom/Commands/HashRenameCommand.cs:69-105 | one loop turn counts the file's listed length and touches no other file; the rename happens, exactly when the file exists, unless a command stopped first; it keeps a file already named for the hash of its bytes, or moves it within its directory to a free candidate for that hash |
| HashRenaming.HashRenameAll | src/tom/Commands/HashRenameCommand.cs:50-105 | the run counts the listed total, leaves unlisted files alone, every move stays in its directory, and only the standalone program logs a caught IOException and goes on; with no path listed twice, every visited file was kept under, or moved to a free candidate for, the hash of its listed bytes, and sits there with those bytes |
| HashRenaming.Visits | src/tom/Commands/HashRenameCommand.cs:69-105 | the loop counts the listed total on success, keeps the log within directories, and keeps Renamed over the files visited |
| HashRenaming.Step | src/tom/Commands/HashRenameCommand.cs:69-105 | one turn: its length counted, its log line added, its rename recorded unless a command stopped first, Renamed kept |
| HashRenaming.RenameStep | src/tom/Commands/HashRenameCommand.cs:71-104 | one rename, on the contents before and after it, keeps Renamed: visited files fit their hashes and stay placed, unvisited ones are untouched |
| HashRenaming.LocationsStep | src/tom/Commands/HashRenameCommand.cs:101-104 | a turn places its file at its Location and keeps the earlier placements |
| HashRenaming.RenamesPlaced | src/tom/Commands/HashRenameCommand.cs:69-105 | Renamed spelled out: every visited file's rename completed, fits the hash of its listed bytes, and left the file at its Location with those bytes |
| HashHardlink.Duplicates | tom.hash-hl/Program.cs:44-64 | at most one duplicate per visited file |
| HashHardlink.FirstsKeys | tom.hash-hl/Program.cs:50-54 | the dictionary holds exactly the hashes seen |
| HashHardlink.FirstWins | tom.hash-hl/Program.cs:50-54 | each hash maps to the first file that had it |
| HashHardlink.FirstsNeverReplaced | tom.hash-hl/Program.cs:50-63 | a recorded mapping is never replaced by later files |
| HashHardlink.RecordedPlusDuplicates | tom.hash-hl/Program.cs:50-60 | every visited file is either recorded or counted as a duplicate |
| HashHardlink.Relink | tom.hash-hl/Program.cs:58-63 | the duplicate is deleted; the link succeeds exactly when the recorded file exists at another path and the call succeeds, after which the path holds the recorded file's bytes; a failed link exits with the duplicate gone |
| HashHardlink.Visit | tom.hash-hl/Program.cs:45-71 | one file's turn: a missing file fails, changing nothing; otherwise its key is that of its bytes, the fold stays in step, only its own path changes, and unless the link failed every recorded file and every link keep their bytes |
| HashHardlink.Lengths | tom.hash-hl/Program.cs:47 | one listed length per file |
| HashHardlink.VisitStep | tom.hash-hl/Program.cs:47-64 | the dictionary, the duplicate count and the saved bytes after one more file |
| HashHardlink.FirstsStep | tom.hash-hl/Program.cs:50-54 | a new hash is added with its file; a seen one leaves the dictionary unchanged |
| HashHardlink.DuplicatesStep | tom.hash-hl/Program.cs:59 | the duplicate count grows by one exactly for a hash already seen |
| HashHardlink.DuplicateBytesStep | tom.hash-hl/Program.cs:60 | the saved bytes grow by the file's length exactly for a hash already seen |
| HashHardlink.LengthsStep | tom.hash-hl/Program.cs:47 | the lengths of one more file extend the earlier lengths by its own |
| HashHardlink.Run | tom.hash-hl/Program.cs:30-75 | on each first visit the key is the lowercased hash of the file's listed bytes; the dictionary, duplicate count and saved bytes are the first-wins fold; unvisited files are untouched; unless a link failed, every recorded file keeps its bytes and every link holds the bytes of the file it links to; on success all files were visited and the total counted |
| HashHardlink.Key | tom.hash-hl/Program.cs:80-84 | the key is the hash lowercased, so lowercasing it again changes nothing |
| HashHardlink.HashedStep | tom.hash-hl/Program.cs:47-48 | the next file's key, on its first visit, is that of its listed bytes |
| HashHardlink.VisitRecords | tom.hash-hl/Program.cs:50-54 | a file with a new key is recorded under it and the volume does not change |
| HashHardlink.DuplicateNotRecorded | tom.hash-hl/Program.cs:55-62 | a duplicate is never a recorded file, so deleting it keeps every recorded file |
| HashHardlink.LinksHoldBytes | tom.hash-hl/Program.cs:58-62 | after the link every link, old or new, holds the bytes of the file it links to |
| HashHardlink.VisitLinks | tom.hash-hl/Program.cs:55-63 | replacing a duplicate by a link to the recorded file keeps unvisited files untouched and every recorded file and link holding its bytes |
| HashHardlink.VisitFails | tom.hash-hl/Program.cs:61-62 | a failed link leaves the duplicate deleted and the other files untouched |
| HashHardlink.LinkDuplicate | tom.hash-hl/Program.cs:58-63 | only the duplicate's path changes; on success it is a link holding the recorded file's bytes; a failure exits |
| HashHardlink.HashedUntouched | tom.hash-hl/Program.cs:45-48 | spelled out: first visits' keys are the lowercased hashes of the listed bytes, and unvisited files keep theirs |
| HashHardlink.LinkedBytes | tom.hash-hl/Program.cs:50-62 | spelled out: every recorded file holds its listed bytes, and every link the listed bytes of the file it links to |
| ImageDedup.Candidate | src/tom/Commands/ImageDuplicateBlockhashCommand.cs:101-106 | a try fails to form exactly in the standalone program, for an earlier name with no dot |
| ImageDedup.EarlierNameIsNotNumbered | src/tom/Commands/ImageDuplicateBlockhashCommand.cs:102-105 | the command's first try, the earlier file's own name, differs from every numbered try |
| ImageDedup.CandidateInjective | tom.img-blockdel/Program.cs:68-71 | different try numbers propose different names, so the collision loop ends |
| ImageDedup.LastNear | src/tom/Commands/ImageDuplicateBlockhashCommand.cs:96-115 | the last recorded image within the confidence distance, if any; no later one is near, and none at all when absent |
| ImageDedup.NearCount | src/tom/Commands/ImageDuplicateBlockhashCommand.cs:96-115 | at most one move per recorded image |
| ImageDedup.NearStep | src/tom/Commands/ImageDuplicateBlockhashCommand.cs:96-115 | one more recorded image adds one to the count and becomes the last near one exactly when it is near |
| ImageDedup.MoveNextTo | src/tom/Commands/ImageDuplicateBlockhashCommand.cs:101-113 | the file moves into the earlier image's directory under the first free try; the standalone program fails for a dot-free earlier name, changing nothing |
| ImageDedup.CompareOne | src/tom/Commands/ImageDuplicateBlockhashCommand.cs:98-114 | hashes of different lengths throw, changing nothing; a near image moves the file once, a far one not at all |
| ImageDedup.CompareAndMove | src/tom/Commands/ImageDuplicateBlockhashCommand.cs:94-118 | one move per near image, the file ending next to the last near one; an ArgumentException only when some recorded hash has another length |
| ImageDedup.NoMoveIffNoneNear | src/tom/Commands/ImageDuplicateBlockhashCommand.cs:96-115 | a file is moved exactly when some recorded image is near it |
| ImageDedup.Turn | src/tom/Commands/ImageDuplicateBlockhashCommand.cs:74-137 | the listed length is counted; a missing file fails; a non-image stays and is not recorded; an image made one move per near recorded image, ends next to the last near one (in place when none is near), and is recorded there with its hash unless a comparison threw |
| ImageDedup.Run | src/tom/Commands/ImageDuplicateBlockhashCommand.cs:50-137 | at most one record per listed file; on success the listed total is counted; unlisted files are untouched; with no path listed twice, record k is the hash of the image listed at origins[k] and that file is at records[k].at with its listed bytes, and a completed run recorded exactly the listed images in order |
| ImageDedup.Visits | src/tom/Commands/ImageDuplicateBlockhashCommand.cs:72-137 | the loop stops only with the exceptions a turn raises, keeps Recorded over the files seen, and on completion recorded exactly the listed images |
| ImageDedup.RecordStep | src/tom/Commands/ImageDuplicateBlockhashCommand.cs:74-118 | one turn keeps Recorded: the file keeps its bytes wherever it moved, and a new record is that image at that place |
| ImageDedup.RecordsPlaced | src/tom/Commands/ImageDuplicateBlockhashCommand.cs:117 | Recorded's placement spelled out: each recorded image is at its record's place with its listed bytes |
| ImageDedup.ImagesStep | src/tom/Commands/ImageDuplicateBlockhashCommand.cs:80-91 | one more listed file adds itself to the images exactly when it hashes |
| ImageDedup.ValidateOptions | tom.img-blockdel/Program.cs:125-132 | fails with ArgumentNull exactly when no source directories are set; otherwise true |
| ImageDedup.ParseOptions | tom.img-blockdel/Program.cs:135-179 | help exactly for no arguments or a leading --help; rejected with ArgumentNull exactly when no directory is given; otherwise the parsed options |
| ImageDimensionFilter.Megapixels | src/tom/Extensions.cs:38 | the area in millions of pixels is never negative |
| ImageDimensionFilter.MegapixelsMonotone | src/tom/Extensions.cs:38 | an image at least as wide and as high has at least the area |
| ImageDimensionFilter.Toss | src/tom/Commands/ImageDimensionFilterCommand.cs:114-156 | an undecodable file is kept; with both dimensions set, tossed exactly when narrower or lower; otherwise width, height and area are tried in turn |
| ImageDimensionFilter.LargerImageIsKept | src/tom/Commands/ImageDimensionFilterCommand.cs:114-151 | an image at least as large in both dimensions as a kept one is kept too |
| ImageDimensionFilter.TossTarget | src/tom/Commands/ImageDimensionFilterCommand.cs:162-170 | the target has the file's own name in the toss directory beside it |
| ImageDimensionFilter.Visit | src/tom/Commands/ImageDimensionFilterCommand.cs:110-171 | the decision is Toss on the file's bytes; a kept file changes nothing; a tossed one moves exactly when the target is free, else IOException with nothing changed |
| ImageDimensionFilter.Run | src/tom/Commands/ImageDimensionFilterCommand.cs:57-191 | an empty listing throws from Max; on success every listed file was decided and the listed total counted; each first visit decided on its listed bytes; unlisted files are untouched; with no path listed twice, every file whose turn completed is at its Where, the toss directory when tossed, with its listed bytes |
| ImageDimensionFilter.DecidedStep | src/tom/Commands/ImageDimensionFilterCommand.cs:108-171 | each file's decision was made on the bytes it had when listed |
| ImageDimensionFilter.Step | src/tom/Commands/ImageDimensionFilterCommand.cs:108-182 | one more decision and the file's length counted, Progress kept: files not yet visited as listed, and a completed turn's file at its Where; stops only on IOException or a zero-total progress division |
| ImageDimensionFilter.Where | src/tom/Commands/ImageDimensionFilterCommand.cs:160-171 | a visited file keeps its name, and is somewhere else exactly when tossed |
| ImageDimensionFilter.WheresAt | src/tom/Commands/ImageDimensionFilterCommand.cs:160-171 | the j-th place is the j-th file's Where |
| ImageDimensionFilter.Visits | src/tom/Commands/ImageDimensionFilterCommand.cs:106-190 | the loop stops only on IOException or a zero-total division; all files' turns, or all but the one whose move threw, completed; Progress holds |
| ImageDimensionFilter.ProgressStep | src/tom/Commands/ImageDimensionFilterCommand.cs:108-182 | one turn, on the contents before and after it, keeps Progress |
| ImageDimensionFilter.PlacedProgress | src/tom/Commands/ImageDimensionFilterCommand.cs:160-171 | a completed turn places its file at its Where and keeps the earlier placements |
| ImageDimensionFilter.WheresPlaced | src/tom/Commands/ImageDimensionFilterCommand.cs:160-171 | spelled out: each of the first placed files is at its Where with its listed bytes |
| ImageDimensionDelete.ValidateOptions | tom.img-dimdel/Program.cs:121-142 | a missing source directory throws ArgumentNull; otherwise true exactly when some threshold is positive |
| ImageDimensionDelete.ShouldKeepImage | tom.img-dimdel/Program.cs:147-163 | with both dimensions set, kept exactly when wide and high enough; otherwise a set width or height must be met and the area must exceed the threshold |
| ImageDimensionDelete.WhyNotKeepImageAsWritten | tom.img-dimdel/Program.cs:168-173 | each part appears exactly when its threshold is positive and strictly missed |
| ImageDimensionDelete.ThresholdImageGetsNoReason | tom.img-dimdel/Program.cs:162-172 | a 1000x500 image with the default 0.5 threshold is moved with an empty reason |
| ImageDimensionDelete.WhyNotKeepImage | tom.img-dimdel/Program.cs:168-173 | the area part appears exactly when the area is not above the threshold |
| ImageDimensionDelete.MovedImageHasReason | tom.img-dimdel/Program.cs:73-77 | every moved image gets a non-empty reason |
| ImageDimensionDelete.AgreesWithCommandOnBothDimensions | tom.img-dimdel/Program.cs:150-151 | with both dimensions set, the program and the command keep the same images |
| ImageDimensionDelete.AgreesWithCommandOffTheBoundary | tom.img-dimdel/Program.cs:153-162 | otherwise, with a positive area threshold, they differ only for an image of exactly the threshold area |
| ImageDimensionDelete.DoTheThing | tom.img-dimdel/Program.cs:66-87 | a missing file is logged; undecodable bytes end the run with OutOfMemory, changing nothing; a kept image is untouched; a moved one, logged with the corrected WhyNotKeepImage, goes to MoveToDir under its name when that place is free |
| ImageDimensionDelete.Run | tom.img-dimdel/Program.cs:29-59 | at most one outcome per listed file; on success all were visited and the listed total counted; each first visit decided on its listed bytes and sent a moved file to MoveToDir under its name; unlisted files are untouched; with no path listed twice, every visited file is at its Destination with its listed bytes |
| ImageDimensionDelete.Step | tom.img-dimdel/Program.cs:39-58 | one more file counted and Done kept: first visits settled, unvisited files as listed, every visited file at its Destination; stops only on OutOfMemory (that file not counted) or a zero-total progress division |
| ImageDimensionDelete.Visits | tom.img-dimdel/Program.cs:39-58 | the loop stops only on OutOfMemory or a zero-total division, counts the listed total on completion, and keeps Done |
| ImageDimensionDelete.SettledStep | tom.img-dimdel/Program.cs:66-81 | one more first visit decided on its listed bytes keeps Settled |
| ImageDimensionDelete.DoneStep | tom.img-dimdel/Program.cs:39-58 | one DoTheThing, on the contents before and after it, keeps Done |
| ImageDimensionDelete.DestinationsStep | tom.img-dimdel/Program.cs:80-81 | a turn places its file at its Destination and keeps the earlier placements |
| ImageDimensionDelete.DestinationsAt | tom.img-dimdel/Program.cs:80-81 | the j-th place is the j-th file's Destination |
| ImageDimensionDelete.DestinationsPlaced | tom.img-dimdel/Program.cs:39-58 | Done's placement spelled out: every visited file is at its Destination with its listed bytes |
| ImageDimensionDelete.OptionsFor | tom.img-dimdel/Program.cs:183-228 | the switches over the defaults: area 0.5, MoveToDir DIR/toss, progress shown unless switched off |
| ImageDimensionDelete.ParseOptionsAsWritten | tom.img-dimdel/Program.cs:176-239 | help exactly for no arguments or a leading --help; rejected exactly unless one DIR is given; a rejected combination still parses |
| ImageDimensionDelete.InvalidCombinationStillRuns | tom.img-dimdel/Program.cs:128-132 | `-m 0 D` is reported invalid and still parses to options |
| ImageDimensionDelete.ParseOptions | tom.img-dimdel/Program.cs:176-239 | as written, except that a combination ValidateOptions rejects is rejected too, so parsed options always validate |

## Left out

- Web-socket transport, TLS, ASP.NET hosting and HttpClient are not modelled. Frames are values: received results and sent frames.
- JSON encoding and decoding are not modelled. Decoding is a parameter, and messages are datatype values.
- SHA-256 is an uninterpreted function parameter. Only digest equality matters.
- Image decoding (System.Drawing) and `ImageToRGBA` are not modelled. The pixels and the blockhash of a file are parameters.
- The floating-point path of `Blockhash_full` and `Translate_blocks_to_bitsf` are not modelled. Only the quick path, taken when both dimensions divide by the bit count, is modelled.
- The `HashAlgorithm` stream overrides in Blockhash.cs are not modelled.
- `Path.GetFullPath` is modelled for empty, "." and ".." pieces and for a trailing separator, which makes a put target a directory. Not modelled: the removal of trailing dots and spaces from a piece, reserved device names, and the drive prefix, which is left out of full names. Paths are segment sequences.
- UploadOf: opening a directory for writing is taken to throw UnauthorizedAccessException.
- Culture-sensitive `OrderBy` on strings is modelled as ordinal order.
- The `GetFiles` search-pattern matcher is a parameter.
- The server's handling of JSON that does not parse is not modelled.
- Throttling inside the server's transfers is not modelled; the throttled stream is modelled on its own. The motd's random text, file modification times, cancellation tokens, session duration and the cancellation timer are not modelled either.
- `Parallel.ForEach`, `Interlocked` and the GC kicks in the image commands are not modelled. Their per-file bodies run sequentially.
- The random listen port (49152-65535) and the random password bytes are parameters.
- Counters and byte totals are unbounded naturals. The model has no 32- or 64-bit wrap-around, and no `int` overflow of width times height.
- Doubles (megapixels, rates, the median's mean) are modelled as exact reals. `Median` is modelled for integer elements only; conversions of other element types to double are not modelled.
- `AsBytesToFriendlyString`, `ToNiceString` value formatting (cells arrive as strings), console colours and cursor positions are display only and are not modelled.
- The `Kilobytes`/`Megabytes` properties of the throttled stream (doubles) are not modelled.
- `Flush`, `SetLength`, the `Can*` properties and `ToString` of the throttled stream are pass-throughs and are not modelled.
- The `Chunk` string extension's definition is not part of this model. It is modelled from its tests.
- The server's Status counters are a parameter of the session, and the megabit limit is carried as a value.
- Client:
  - At the end of input `Prompt` would loop for ever on null lines; the model stops there with an input-exhausted outcome.
  - The text of the chain-status report (including `string.Join` over a null chain) is not modelled.
  - The ls display is recorded as a listing; the `Union` de-duplication of names for display is not modelled.
  - `new DirectoryInfo` path validation is modelled only for null.
  - Lower-casing and `StartsWith` are ASCII and ordinal.
  - Send failures are not modelled.
  - URI parsing is not modelled: the endpoint arrives as its parts.
  - A null close description is modelled as the empty text.
  - The token prompt and `Environment.CurrentDirectory` are not modelled.
  - The 4 KiB receive buffer is represented by the receive results themselves.
- Throttling.ThrottledStream.constructor requires a non-negative limit and a base stream; `Create` models the throwing path for the other inputs.
- ProgressLogging.CompleteDashes: states only that a failure (the ArgumentOutOfRangeException of a negative dash count) implies a negative progress, not the converse.
- SendFile: models the corrected program. Its frames come from FramesFrom, where the last frame ends the message; the source never ends the message after a read that fills the whole buffer (see the FramesFrom finding).
- SendFiles: models the corrected program, because each file goes through SendFile's corrected frames.
- SendNext: models the corrected program, because each file goes through SendFile's corrected frames.
- Get: models the corrected program, because its transfers use SendFile's corrected frames.
- SendSelection: models the corrected program, because its transfers use SendFile's corrected frames.
- ReceiveFile: models the corrected program. The file then holds exactly the received bytes (PutContent); the source's `OpenWrite` keeps the tail of a longer old file (see the OpenWrite finding).
- HashCore: models the corrected program. It folds `buffer[start..start + length]`; the source's loop bound `size - start` folds fewer bytes when `start > 0` (see the Crc32 finding).
- MarkComplete: models the corrected program. Its final rate is the guarded FinalRate; the source throws DivideByZeroException when the run took less than one second (see the FinalRate finding).
- UpdateConsole: models the corrected program, because its final update uses the guarded FinalRate.
- DrawTotals: models the corrected program, because its final lines use the guarded FinalRate.
- DoTheThing: models the corrected program. The reason it logs is the corrected WhyNotKeepImage; the source's can be empty for an image it moves (see the WhyNotKeepImage finding).
- ImageDimensionDelete.Run: where each file ends is stated only for listings with no path twice. Settled records that a moved file was decided against ShouldKeepImage and where it went, not the text of the reason logged for it.
- HashRenaming.HashRenameAll: where each file ends, and that its name fits the hash of its listed bytes, is stated only for listings with no path twice; a repeated path is visited again in whatever state its first visit left.
- ImageDedup.Run: which image each record holds and where it sits is stated only for listings with no path twice.
- ImageDimensionFilter.Run: where each file ends is stated only for listings with no path twice.
- Cd: looks the name up among all children of the directory, where the source searches only its subdirectories. The two agree because a directory cannot hold a file and a subdirectory of the same name.
- Relink: a hard link is modelled as a copy of the bytes at the link's path. The aliasing of a real hard link, where a later write to one name shows through the other, is lost.
- Windows file-name lookups (`File.Exists`, `MoveTo`) ignore case; the model's volume compares names exactly. So a name taken only in another case, such as "ABC.txt" for "abc.txt", counts as free in the model.
- CLI wiring, the chart, version-check, hash-printing and test-stub commands, `Input.cs` and the logging plumbing are outside this core.

## Findings

| source | as written | input that shows it | evidently intended | confidence | as-written member | corrected member |
|---|---|---|---|---|---|---|
| src/util/Hashing/Crc32.cs:126 | the loop runs `i < size - start`, so `start + size` bytes are never reached when `start > 0` | start 1, size 2 on three bytes: the loop hashes no byte | hash `buffer[start..start + size]` | not executed | Crc32.CalculateHashAsWritten, Crc32.AsWrittenSkipsBytes, Crc32.AsWrittenDiffers | Crc32.CalculateHash |
| src/util/Logging/ConsoleFileProgressLogger.cs:142-145 | the final update divides by the elapsed seconds without a guard | `MarkComplete` 500 ms after construction, with 1000 bytes counted: whole seconds elapsed are 0 | no final rate when less than a second has elapsed | not executed | ProgressLogging.FinalRateAsWritten, ProgressLogging.FinalUpdateWithinASecondThrows | ProgressLogging.FinalRate |
| tom.img-dimdel/Program.cs:162, 168-173 | `WhyNotKeepImage` lists megapixels only when strictly below the threshold, while `ShouldKeepImage` keeps only strictly above it | a 1000 x 500 image at the default 0.5 megapixels is moved with an empty reason | a moved image always has a reason | not executed | ImageDimensionDelete.WhyNotKeepImageAsWritten, ImageDimensionDelete.ThresholdImageGetsNoReason | ImageDimensionDelete.WhyNotKeepImage, ImageDimensionDelete.MovedImageHasReason |
| tom.img-dimdel/Program.cs:128-132, 230 | the `false` returned by `ValidateOptions` is ignored | `-m 0` with no width or height: reported invalid, and the run still goes ahead | an invalid combination stops the run | not executed | ImageDimensionDelete.ParseOptionsAsWritten, ImageDimensionDelete.InvalidCombinationStillRuns | ImageDimensionDelete.ParseOptions |
| src/ws/Controllers/WebSocketController.cs:274 | end-of-message is set only on a read shorter than the buffer | a file of exactly 128 KiB: its binary message is never ended | end the message on the last frame | not executed | WebSocketServer.FramesFromAsWritten, WebSocketServer.WholeBuffersNeverEnd, WebSocketServer.OneBufferFileLeavesMessageOpen | WebSocketServer.FramesFrom, WebSocketServer.FramesEndOnce |
| src/ws/Controllers/WebSocketController.cs:310 | an upload opens the target with `OpenWrite`, which does not truncate | uploading the 1 byte 9 over the 3-byte file 1, 2, 3 leaves 9, 2, 3 | the file holds exactly the uploaded bytes | not executed | WebSocketServer.OpenWriteContentAsWritten, WebSocketServer.ShorterUploadKeepsOldTail | WebSocketServer.PutContent, WebSocketServer.AsWrittenAgreesOnLongerUploads |
