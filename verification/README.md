# A Dafny model of libs3

libs3 is a C client for Amazon S3. The network work is done by libcurl, XML tokenising by libxml2 and
hashing by OpenSSL; what remains in the library and its command line program is buffer, list and
state-machine code. This project models that code and proves what it promises. Code that changes memory is
modelled as classes and methods over arrays and linked nodes; each method is proved against a function on
values, and the properties are lemmas about those functions. `dafny verify dfyconfig.toml` checks everything.

The parts, and where to start reading:

- **Request canonicalisation.** `KvSort` (the gnome sort) is proved against `GnomeSort`; `AmzHeaders` builds the
  header heap and `StandardHeaders` the other headers; `HeaderFolding`, `CanonicalHeaders` and `Grouping` lead to
  `SigV4Headers.CanonicalHeadersMeetSigV4`.
  `UrlEncoding`, `StringBuffers` and `QueryComposer` compose queries; `CanonicalQuery`, `RequestUri` and
  `SignedRequests` show when what is signed is what is sent. `BucketNames` decides which buckets get that far.
- **Streaming XML.** `SimpleXml` is the path buffer and the sticky status, `XmlDocuments` the meaning of a document and
  its independence of chunks, `XmlRecords` what the XML callbacks share. On top of it: `ListBucket`, `ListBatches` and
  `ListBucketData` for bucket listings, with `ListingFields` saying what the user is told in terms of the elements of the
  reply; `ListParts`, `ListPartsData` and `PartFields` for part listings; `ErrorParser` and `ExtraDetails` for error
  documents; and `AclDocuments`, `AclPrinter`, `AclParser`, `AclRoundTrip`, `AclReading` and `ConvertAclData` for access
  control lists, whose text is connected to events by `XmlText`.
- **Request lifecycle and pool.** `Requests` models curl's callbacks with curl as an arbitrary caller and the user as an
  arbitrary function of the history; `XmlUpload` adds the upload of a document; `RequestPool` interleaves threads one
  memory access at a time.
- **Byte queue and multipart upload.** `GrowBuffer` is the ring of blocks, proved against `ByteQueue`; `Multipart` is the
  part loop and `CommitUpload` the commit document and its way to the server.

## What was found

Statements of the source or of its documentation that the code does not meet, each with the exact condition under which
it does:

- The comment at `src/request.c:672-675` calls the sort stable. Equal keys come out in reverse order
  (`GnomeSort.SortedReversesTies`), so the values of a repeated header name are signed in the reverse of the order they
  are sent in (`SigV4Headers.RepeatedNamesSignedBackwards`, `SigV4Headers.TwoHeadersSignedBackwards`).
- The callers of `append_amz_header` ignore its status (`src/request.c:351-440`). A header that finds no room is silently
  replaced by the next one that does, which is then there twice; if none does, a pointer designates nothing
  (`AmzHeaders.HeaderIsNextStored`, `AmzHeaders.LostHeader`).
- `string_buffer_append` reports a fit for exactly as many characters as the capacity, and drops the last one
  (`StringBuffers.FitFlag`). A composed query of 4096 characters loses its last character
  (`QueryComposer.ComposedQueryDecodes`, `QueryComposer.FullQueryLosesEnd`), a key of 1024 characters is listed with
  1023 (`ListBatches.KeyIsWhole`), and an owner string of 127 characters comes back with 126
  (`AclRoundTrip.AclSurvives`).
- The signed query is the canonical form of the sent one only if the sub-resource's name sorts last
  (`CanonicalQuery.SignedQueryIsSent`), which the list calls meet, and if its text fits a buffer of 3339 characters
  (`src/request.c:99`), which they do not always: a composed query may have 4095. A longer text is cut off, and once the
  length is beyond the buffer, `buffer_size - len` wraps around and the next write goes behind it. The exact conditions
  are in `SignedRequests.RequestSignedAsSent`, `SignedRequests.ListBucketSigned`, `SignedRequests.ListPartsSigned` and
  `SignedRequests.ListUploadsSigned`; `SignedRequests.LongListNotSigned` is a request that is sent nevertheless.
- `char encoded[3 * 1024]` of `safe_append` has no room for the terminator of a value of 1024 characters that are all
  encoded (`QueryComposer.FullValueOverflows`, `QueryComposer.BlanksOverflow`).
- The error parser compares the number of extra details with the size of their array in bytes
  (`src/error_parser.c:83-87`), so the ninth is written behind the array (`ErrorParser.ArrayIsRespected`,
  `ErrorParser.AtMostEight`, `ErrorParser.NineAreTooMany`).
- The loop that is to remove the whitespace at the end of a standard header begins at the terminator and removes nothing
  (`src/request.c:474-478`, `StandardHeaders.BlanksStay`).
- A header whose value is blank throughout loses the blank that canonicalisation scans for, and the scan runs past the
  terminator (`AmzHeaders.NormalisedWellFormed`, `AmzHeaders.NameLoopRunsOn`, `AmzHeaders.BlankValueStored`).
- A batch that the user's list callback refuses is delivered again (`ListBatches.RefusedBatchComesAgain`,
  `ListBatches.EightPrefixesTwice`).
- An upload abort can be overwritten: by the answer of the properties callback, by a failing `curl_easy_getinfo`, and when
  the request context is destroyed (`Requests.AbortIsReported`, `Requests.LostAbort`).
- `growbuffer_append` writes at `data[size]`, which is the end of the stored bytes only in a block that has not been read
  from (`ByteQueue.WriteIsAppend`); the program appends everything before it reads.
- A part of the commit document that does not fit its buffer of 256 characters is appended with the length that
  `snprintf` reports (`CommitUpload.BuildCommit`).
- A multipart copy whose last part is one byte copies the whole source object for that part (`Multipart.CopyTiles`).

## Conventions

A C string is a `string` without the terminator; memory is an `array<char>` or its contents, and `Strings.Holds` says
that memory holds a C string. `size_t` and `int` lengths are natural numbers; where a width matters (`uint64_t`
arithmetic in `ParseUnsignedInt` and in the part loop) the wrap-around is written out. Characters are compared by
code, as unsigned ones; `KvSort.SignedOrderOfAscii` and `KvSort.SignedOrderDiffers` say when that matters. User
callbacks are functions of everything they have been handed so far, which makes them arbitrary deterministic programs.
Where the source writes without a check of its own, a method either reports whether every write went into the buffer,
or has a precondition on the buffer's size, which is then shown to be met, as in `SignedRequests.SignedPathIsSent`, or
is named under "Left out".

## Model

| member | source | states |
|---|---|---|
| KvSort.HeaderLe | src/request.c:651-669 | for strings that contain the delimiter the result is the strict lexicographic order of their keys, although the name says "less or equal" |
| KvSort.SignedOrderOfAscii | src/request.c:651-669 | for ASCII keys it does not matter whether plain char is signed |
| KvSort.KvGnomeSort | src/request.c:680-694 | terminates, and leaves in the array exactly the reference sort of the pointers that were there |
| KvSort.GnomeLoop | src/request.c:684-693 | the loop with the jump to the last highest index: after every round the entries up to that index are sorted but for the one on its way down |
| KvSort.ByKeyIsOrder | src/request.c:651-669 | the comparison is a strict weak order, so that sorting by it makes sense |
| GnomeSort.SortedAscending | src/request.c:672-694 | the result is ascending |
| GnomeSort.SortedPermutes | src/request.c:672-694 | the result is a permutation of the input |
| GnomeSort.SortedReversesTies | src/request.c:672-694 | entries with equal keys come out in reverse input order; the comment in the source calls the sort stable |
| GnomeSort.SortedUnique | src/request.c:672-694 | these properties determine the result |
| GnomeSort.StrictUnique | src/request.c:672-694 | without equal keys there is exactly one strictly ascending order, whatever sorts |
| AmzHeaders.RequestComputedValues.AppendAmzHeader | src/request.c:286-329 | succeeds exactly when the size test passes, and then appends lower-cased name, ": " and right-trimmed value to the strings that can be read back through the pointers; on failure no memory changes, but the count is bumped and the new pointer is where the next string will go |
| AmzHeaders.HeaderIsNextStored | src/request.c:351-440 | the callers ignore the status of append_amz_header: header i turns out to be the first header from i on that found room in the raw buffer, and behind the last of those the pointers designate nothing |
| AmzHeaders.AllHeadersThere | src/request.c:351-440 | when all found room, the headers are the appended ones in order; every pointer designates a string exactly when the last append found room |
| AmzHeaders.LostHeader | src/request.c:351-440 | the concrete run: a header that is too long is not there, and the one after it is there twice |
| AmzHeaders.HeapExtend | src/request.c:310-328 | writing a string behind the last one keeps every earlier string readable: the strings never overlap |
| AmzHeaders.MetadataName | src/request.c:297-302 | the name of a metadata header is the prefix and at most 2032 characters of the given name |
| AmzHeaders.StoredMetadata | src/request.c:297-328 | what is stored for metadata, written out: the prefix, the name in lower case, ": ", and the value without the spaces and tabs at its end |
| AmzHeaders.StoredOwn | src/request.c:311-328 | the same for the library's own headers |
| AmzHeaders.CollectedNamesLower | src/request.c:311-313 | however the appends went, no name among the collected headers has an upper-case letter |
| Strings.LowerMeans | src/request.c:311-313 | tolower: no upper-case letter is left, everything else stays, and two strings become the same exactly when they differ in the case of letters only |
| AmzHeaders.NormalisedWellFormed | src/request.c:310-328 | a stored header has the form that canonicalisation needs exactly when its value is not blank throughout |
| AmzHeaders.CollectedAreCanonical | src/request.c:286-329 | appends with names free of colons and spaces and values that are not blank throughout leave headers that can be canonicalised and are in the order that is signed |
| AmzHeaders.NameLoopRunsOn | src/request.c:745-749 | the loop that copies a header name finds no space up to and including the terminator, and so runs past it, exactly when the value is blank throughout |
| AmzHeaders.RequestComputedValues.CanonicalizeSignatureHeaders | src/request.c:698-788 | the buffers end up with the block and the name list of the sorted headers |
| AmzHeaders.RequestComputedValues.SignedLinesAre | src/request.c:700-719 | signed are all x-amz- headers, and of content-type, host, range and md5 those that are there |
| CanonicalHeaders.WriteHeaders | src/request.c:725-787 | the loop over the sorted headers writes one line per distinct name, repeated names folded into a comma list, and the names to the second buffer |
| CanonicalHeaders.SameNameTest | src/request.c:735-741 | comparing as many characters as the previous name and its colon have compares the names |
| HeaderFolding.CopyValue | src/request.c:757-778 | the copy loop with its backing up over blanks computes the folded value |
| HeaderFolding.FoldIntoUnfolds | src/request.c:757-778 | what the loop computes is the value with every CRLF-blank fold and the blanks around it taken out |
| HeaderFolding.FoldTakenOut | src/request.c:760-775 | a fold, written out: CR, LF and the spaces and tabs behind them go together with the spaces and tabs in front |
| HeaderFolding.UnfoldedKeepsInk | src/request.c:757-778 | folding loses no visible character |
| Grouping.GroupsAreGrouping | src/request.c:725-787 | one pass over a list sorted by key groups it: keys strictly ascending, each with exactly its values in list order |
| Grouping.GroupingUnique | src/request.c:725-787 | a grouping is determined by the list |
| Grouping.SortedGrouping | src/request.c:698-788 | sorting with this sort and grouping in one pass groups the list read backwards |
| Grouping.BackwardsIsForwards | src/request.c:698-788 | that is the grouping of the list as sent exactly when the values of every key read the same backwards |
| SigV4Headers.SignableOrder | src/request.c:698-723 | for the names that are signed, the order of the raw names is the order of the lower-cased ones |
| SigV4Headers.BlockRenders | src/request.c:725-787 | what the loop writes is the rendering of the groups |
| SigV4Headers.CanonicalHeadersMeetSigV4 | src/request.c:698-788 | sort and loop together give SignedHeaders as the strictly ascending list of distinct lower-cased names and CanonicalHeaders with one line per name, values in reverse order of sending |
| SigV4Headers.SignedNames | src/request.c:744-753 | SignedHeaders has no upper-case letter, and is the names of the lines in lower case, each once and ascending, joined by semicolons |
| SigV4Headers.SampleSigned | src/request.c:698-788 | the concrete text that is signed for three headers, two of them with one name |
| SigV4Headers.RepeatedNamesSignedBackwards | src/request.c:698-788 | the signed text has the values of every name in the order they are sent in exactly when, for every name, joining its values in the other order gives the same text |
| SigV4Headers.TwoHeadersSignedBackwards | src/request.c:698-788 | the concrete case: the text signed for two headers of one name is in the wrong order, unless "v,w" and "w,v" are the same text |
| SigV4Headers.TwoValuesSignedBackwards | src/request.c:698-788 | the concrete case: two different values of one name are signed in the other order |
| UrlEncoding.UrlEncode | src/util.c:69-97 | returns 0 exactly when the source is longer than maxSrcSize; the destination starts with the encoding of what is allowed, and the terminator goes into it exactly when it has room for one character more |
| UrlEncoding.EncodeAlphabet | src/util.c:69-97 | the encoding has at most three characters per source character, all of them unreserved, "%" or, where allowed, "/" |
| UrlEncoding.EncodedByte | src/util.c:82-92 | character by character, written out: letters, digits and "-_.~" stay, "/" stays exactly when it is not to be encoded, any other byte becomes "%" and two upper-case hexadecimal digits |
| UrlEncoding.EncodedAt | src/util.c:75-94 | a text is encoded character by character |
| UrlEncoding.EncodingRoundTrip | src/util.c:69-97 | percent-decoding (section 2.1 of RFC 3986) gives the source back |
| UrlEncoding.KeyPieces | src/request.c:640-645 | the pieces between the slashes of an encoded key decode one by one to the pieces of the key |
| UrlEncoding.ParseUnsignedInt | src/util.c:160-175 | leading blanks, then digits, modulo 2 to the power of 64 |
| UrlEncoding.DecimalDigit | src/util.c:166-172 | the decimal system, written out: another digit counts ones and makes the others count ten times as much |
| UrlEncoding.PrintedNumberParsed | src/util.c:160-175 | a number below 2 to the power of 64 in decimal digits, behind spaces and tabs and in front of anything but a digit, is read as itself |
| StringBuffers.StringBuffer.Append | inc/string_buffer.h:53-66 | the macro on the char array has the effect of the append on values, and the fit flag says whether the length stayed within the capacity |
| StringBuffers.ChunksDoNotMatter | inc/string_buffer.h:40-66 | what a buffer holds depends only on the concatenation of what was appended |
| StringBuffers.FitFlag | inc/string_buffer.h:40-66 | the last flag is set exactly when all text has at most cap characters; with exactly cap it is set although the last character is lost |
| StringBuffers.KeptWhole | inc/string_buffer.h:40-66 | a text survives whole exactly when it is shorter than the capacity |
| QueryComposer.SafeAppend | src/bucket.c:675-711 | appends "&", name, "=" and the encoded value, or reports QueryParamsTooLong; the terminator of the encoding goes into its array of 3 * 1024 characters exactly when the encoding is shorter than that |
| QueryComposer.FullValueOverflows | src/bucket.c:694-695 | of the values that are accepted, exactly those of 1024 characters that are all encoded do not go into the array |
| QueryComposer.BlanksOverflow | src/bucket.c:694-695 | the concrete value: 1024 blanks |
| QueryComposer.ComposeQuery | src/bucket.c:713-727 | composes exactly the nonempty arguments, or reports QueryParamsTooLong exactly when they do not fit |
| QueryComposer.QueryRoundTrip | src/bucket.c:675-727 | splitting at "&" and "=" and decoding a composed query gives exactly the nonempty arguments back |
| QueryComposer.BucketQueryRead | src/bucket.c:713-727 | a server that decodes the query finds every argument of S3_list_bucket under its own name, the number in decimal |
| QueryComposer.PartsQueryRead | src/multipart.c:1035-1045 | the same for S3_list_parts |
| QueryComposer.UploadsQueryRead | src/multipart.c:904-925 | the same for S3_list_multipart_uploads |
| QueryComposer.ComposedQueryDecodes | src/bucket.c:675-727 | what is left in the buffer decodes to the arguments exactly when the text has fewer than 4096 characters; at 4096 the last character is lost without an error |
| QueryComposer.FullQueryLosesEnd | src/bucket.c:675-727 | the concrete listing: its query has 4096 characters, is accepted, and decodes to something else |
| CanonicalQuery.NextToken | src/request.c:843-846 | the strtok_r step: separators in front are skipped, then one token is cut off |
| CanonicalQuery.CountParams | src/request.c:825-830 | the count of separators plus one is the number of pieces |
| CanonicalQuery.SortQueryString | src/request.c:818-871 | for nonempty "name=value" tokens the result is the join of the sorted split, and nothing is cut off in a buffer of twice the length |
| CanonicalQuery.CanonicalizeQueryString | src/request.c:875-903 | the buffer holds as much as goes into it of the sorted query followed by the sub-resource, with "=" added to a bare name; no write goes behind it exactly when no append starts there |
| CanonicalQuery.SignedQueryIsSent | src/request.c:875-903 | with distinct names, the signed query is the canonical form of the sent one exactly when the sub-resource's name sorts after all query names |
| CanonicalQuery.BufferIsCanonical | src/request.c:875-903 | with distinct names, what a buffer of a given size holds is the canonical form of the sent query exactly when the sub-resource sorts last and the text, whose length is that of its parts, is shorter than the buffer |
| CanonicalQuery.CanonicalNotShorter | src/request.c:875-903 | no text that is shorter is a canonical form of that query |
| RequestUri.ComposeUri | src/request.c:1092-1148 | OK when the URI fits, and then the buffer holds it; UriTooLong otherwise |
| RequestUri.CanonicalizeResource | src/request.c:792-816 | the buffer holds the canonical path |
| RequestUri.UriParts | src/request.c:792-816 | path and query of the composed URI are the canonical path and the sent query, although two separate pieces of code write them |
| RequestUri.UriAddress | src/request.c:1108-1131 | where a request goes, read from the URI: scheme by protocol; the bucket's own host exactly for virtual-host style without a dot in the name; the bucket in the path exactly for path style |
| StandardHeaders.PutHeader | src/request.c:456-482 | empty without a source; blanks in front of the value are skipped; a blank value or a text of 128 characters is refused with its own status; otherwise the buffer holds the text |
| StandardHeaders.BlanksStay | src/request.c:474-478 | the blanks at the end of the value stay, although they were to be removed |
| StandardHeaders.ComposeHostHeader | src/request.c:515-545 | the Host header names the bucket's host in virtual-host style and the service otherwise, or UriTooLong |
| StandardHeaders.RequestAddressed | src/request.c:1113-1131 | a service that reads Host header and path finds the bucket and the encoded key; the host of the URI will do except for a dotted name in virtual-host style |
| SignedRequests.RequestReachesObject | src/request.c:1092-1148 | for every accepted bucket and every key the service finds exactly that bucket and, decoded, that key |
| SignedRequests.SignedPathIsSent | src/request.c:1092-1148 | for every key that encode_key accepts and every bucket that setup_request accepts, the path that is sent is the one that is signed, and it fits its buffer |
| SignedRequests.RequestSignedAsSent | src/request.c:1092-1148 | a whole request: the path in the URI is the signed one, and what the buffer of the signed query holds is the canonical form of the query in the URI exactly when the sub-resource sorts last and the text goes into the buffer |
| SignedRequests.ComposedQuerySigned | src/request.c:875-903 | a composed query with distinct names below the sub-resource's name has a canonical text that is the canonical form of what is sent, and the buffer of 3339 characters holds it exactly when it is short enough |
| SignedRequests.ListBucketSigned | src/bucket.c:713-727 | a request of S3_list_bucket is signed as it is sent exactly when the composed query has at most 3338 characters |
| SignedRequests.ListPartsSigned | src/multipart.c:1031-1045 | a request of S3_list_parts is signed as it is sent exactly when its query is empty, or the composed query, a separator and the sub-resource have at most 3338 characters together |
| SignedRequests.ListUploadsSigned | src/multipart.c:904-925 | a request of S3_list_multipart_uploads is signed as it is sent exactly when the composed query has at most 3329 characters |
| SignedRequests.LongListNotSigned | src/multipart.c:904-925 | the concrete listing: composed without an error, with a URI that fits, but with a signed query that is cut off and a write that goes behind its buffer |
| BucketNames.ValidateBucketName | src/general.c:209-277 | the first fault from the left decides the status; OK exactly for the names that the reference predicate accepts |
| BucketNames.FaultMeans | src/general.c:209-277 | what each fault is, with the characters written out |
| BucketNames.FaultlessNames | src/general.c:209-277 | a name without a fault at any position is one that meets the reference up to length and digits |
| SimpleXml.SimpleXml.SaxStartElement | src/simplexml.c:62-91 | pushes a name on the path buffer, or sets XmlParseFailure when it would not fit; nothing after a status other than OK |
| SimpleXml.SimpleXml.SaxEndElement | src/simplexml.c:94-114 | calls back with the path and cuts the last name off |
| SimpleXml.SimpleXml.SaxCharacters | src/simplexml.c:117-127 | calls back with the path and the text |
| XmlDocuments.PushPath | src/simplexml.c:74-90 | appending "/" and a name to the buffer pushes the name on the stack |
| XmlDocuments.PopPath | src/simplexml.c:108-113 | cutting the buffer at its last "/" pops the stack |
| XmlDocuments.PathsDistinct | src/simplexml.c:74-90 | different stacks of open elements have different paths |
| XmlDocuments.Halted | src/simplexml.c:62-127 | after the first status other than OK no event has any effect, and no callback is made |
| XmlDocuments.RunIsEval | src/simplexml.c:62-127 | for every well-nested document the SAX callbacks compute its meaning: each callback gets the joined names of the open elements; a document that is read to its end leaves the path as it was |
| XmlDocuments.ChunkIndependent | src/simplexml.c:117-127 | for a callback that is additive in text, cutting text into chunks does not matter |
| XmlDocuments.Parse | src/simplexml.c:180-213 | the object, fed with the events of a document, ends with the document's meaning |
| XmlRecords.CollectText | src/bucket.c:526-584 | after a subtree every buffer holds exactly the text of its element, and the parse goes on exactly when every buffer that insists takes it |
| XmlRecords.PathsDecide | src/simplexml.c:74-86 | with a callback that accepts everything a document is read to its end exactly when all its paths fit the 512 characters, and ends with XmlParseFailure otherwise |
| XmlRecords.ReaderAdditive | src/bucket.c:526-584 | callbacks of this shape are additive in text |
| ListBucket.ItemsEval | src/bucket.c:518-623 | reading the children of the root is running over their Contents, prefixes and other elements |
| ListBucket.CollectContents | src/bucket.c:432-440 | reading a Contents element into fresh buffers fills exactly its six, each with the text of its element |
| ListBatches.ListingIsDocument | src/bucket.c:518-662 | when the parse ends with OK, the batches together give every Contents and every prefix of the document exactly once, in order; each batch is nonempty with at most 32 contents and 8 prefixes; with a user who accepts everything the parse ends with OK when no prefix has 1024 characters, and with XmlParseFailure otherwise |
| ListingFields.ListingTells | src/bucket.c:486-511 | over all batches one content per Contents element and one prefix per Prefix element, in order, each with exactly the texts of its elements by name: key, time, entity tag, size, owner's ID and name (none when empty) |
| ListingFields.SizeIsTold | src/bucket.c:497 | a size in decimal digits is the size the user is told |
| ListingFields.BatchesTellDocument | src/bucket.c:482-484 | every batch made after the texts of IsTruncated and NextMarker, including the last one, carries the flag and the marker of the document |
| ListBatches.BatchedIsUnbatched | src/bucket.c:587-614 | the invariant behind it, from any state: delivered and pending together grow by exactly what the items hold |
| ListBatches.AcceptedRunEndsWell | src/bucket.c:570-584 | the only other way to fail is a prefix that is too long |
| ListBatches.RefusedBatchComesAgain | src/bucket.c:587-653 | a batch that the user refuses is delivered a second time at the end of the request |
| ListBatches.EightPrefixesTwice | src/bucket.c:587-653 | the concrete listing: of eight prefixes a user who refuses gets the one batch twice |
| ListBatches.CompleteDeliversAll | src/bucket.c:645-654 | the complete callback delivers what is pending |
| ListBatches.ListingIgnoresChunks | src/bucket.c:518-623 | the outcome does not depend on how the text is cut |
| ListBatches.KeyIsWhole | src/bucket.c:423-430 | a key is listed whole exactly when it has fewer than 1024 characters |
| ListBucketData.ListBucketData.XmlCallback | src/bucket.c:518-623 | the callback on the arrays and counts of ListBucketData is the callback on values; after OK both counts index their arrays |
| ListBucketData.ListBucketData.MakeCallback | src/bucket.c:478-515 | converts the finished records and hands them over |
| ListBucketData.ListBucketData.HandOver | src/bucket.c:590-595 | hands a full batch over and resets the data when the user accepts it |
| ListBucketData.ListBucketData.CompleteCallback | src/bucket.c:645-654 | delivers what is left |
| ListParts.PartsListing | src/multipart.c:780-853 | the batches together give every part of the document once and in order, and each batch says how many parts came before it |
| PartFields.ListingTells | src/multipart.c:589-599 | over all batches one part per Part element, in order, each with exactly the texts of its elements by name |
| PartFields.NumbersAreTold | src/multipart.c:595-596 | part number and size in decimal digits are what the user is told |
| PartFields.BatchesTellDocument | src/multipart.c:584-605 | every batch made after the elements about the whole listing, including the last one, carries flag, marker, initiator, owner and storage class of the document |
| ListParts.BatchIndex | src/multipart.c:833-841 | part i of a batch is part start + i of the listing, which is where the user stores it |
| ListParts.ChildrenEval | src/multipart.c:780-853 | reading the children of the root is reading them one by one |
| ListParts.PartsIgnoreChunks | src/multipart.c:780-853 | the outcome does not depend on how the text is cut |
| ListPartsData.ListPartsData.XmlCallback | src/multipart.c:780-853 | the callback on the arrays of ListPartsData is the callback on values |
| ListPartsData.ListPartsData.MakeCallback | src/multipart.c:580-605 | converts the finished parts and hands them over |
| ListPartsData.ListPartsData.CompleteCallback | src/multipart.c:628-637 | delivers what is left |
| AclPrinter.GenerateAclXmlDocument | src/bucket_metadata.c:173-241 | reports XmlDocumentTooLarge exactly when the text is not shorter than the buffer; otherwise the buffer holds the text of the list, but for its last character when it would fill the buffer |
| AclPrinter.AppendGrant | src/bucket_metadata.c:204-234 | one round of the loop prints one grant |
| AclPrinter.PrintedIsRendered | src/bucket_metadata.c:173-241 | the printed pieces together are the text of the document tree |
| AclPrinter.PrintedPolicy | src/bucket_metadata.c:194-239 | the printed document, tag by tag |
| AclPrinter.PrintedGrant | src/bucket_metadata.c:204-234 | what is printed around the grantee, with each permission by name |
| AclPrinter.PrintedGrantee | src/bucket_metadata.c:210-228 | what is printed for each kind of grantee, with the group URIs written out |
| AclPrinter.DocumentFits | src/bucket_metadata.c:183-192 | for at most 100 grants with strings of at most 127 characters the text always fits the 64K buffer untruncated |
| XmlText.ScanRender | src/bucket_metadata.c:173-241 | scanning printed text gives back the events of the tree |
| AclParser.ConvertIgnoresChunks | src/general.c:297-448 | reading a list does not depend on how the text is cut |
| AclReading.ReadingTells | src/general.c:297-480 | any document that is read without an error, printed or not: the owner's strings are its texts, and there is one grant per Grant element, in order, with an e-mail address before a user before a group, and groups and permissions by their names |
| AclReading.GrantRefused | src/general.c:377-437 | TooManyGrants, BadGrantee and BadPermission, each for exactly its own cases |
| AclReading.TextRefused | src/general.c:313-371 | text that does not fit is refused with the status of its element |
| AclRoundTrip.AclSurvives | src/general.c:297-448 | a list that is printed and read back, with text cut anywhere, comes back the same exactly when the owner's strings have at most 126 characters, there are at most 100 grants and no grantee string is empty |
| AclRoundTrip.PrintedTextSurvives | src/general.c:297-480 | the same from the printed characters on |
| AclRoundTrip.TooManyAreRefused | src/general.c:379-381 | a grant after the hundredth gives TooManyGrants, with the first hundred kept |
| AclRoundTrip.GrantsEval | src/general.c:375-444 | reading the grants admits them one by one |
| ConvertAclData.ConvertAclData.XmlCallback | src/general.c:297-448 | the callback on the fields of ConvertAclData is the callback on values |
| ConvertAclData.ConvertAclData.FinishGrant | src/general.c:375-444 | the end of a Grant: too many, bad grantee, bad permission, or one more grant and blank buffers |
| ErrorParser.ErrorDetails | src/error_parser.c:37-121 | the four known elements get their text as far as it fits; the extra details are always the first of the runs of all other texts in document order, and all of them exactly when they fit into the multibuffer |
| ErrorParser.ErrorTexts | src/error_parser.c:49-68 | the four known elements by name: each buffer has the text of its element, up to 1023 characters |
| ErrorParser.UnknownMeans | src/error_parser.c:70-78 | which texts become extra details, and under which names |
| ErrorParser.ErrorIgnoresChunks | src/error_parser.c:37-121 | the outcome does not depend on how the text is cut, also when extras do not fit |
| ErrorParser.UnknownsAreRuns | src/error_parser.c:75-118 | texts of one element in a row become one extra; the extras are the first of these runs, and all of them exactly when they fit |
| ErrorParser.ArrayIsRespected | src/error_parser.c:83-112 | every write into the array of extras goes to one of its eight elements exactly when no ninth run begins while everything still fits |
| ErrorParser.AtMostEight | src/error_parser.c:83-112 | when all runs fit into the multibuffer, that is exactly when there are at most eight of them |
| ErrorParser.NineAreTooMany | src/error_parser.c:83-112 | the concrete document: nine different elements |
| ExtraDetails.ExtraDetails.AddUnknown | src/error_parser.c:75-118 | in memory: every listed name and value stays a readable C string of the multibuffer; an extra whose text no longer fits is dropped; the write goes behind the array exactly when the count would exceed eight |
| ExtraDetails.ParseExtras | src/error_parser.c:75-118 | a whole document: when its runs fit into the multibuffer, every write goes into the array exactly when there are at most eight runs, and then memory holds exactly these |
| ExtraDetails.ExtraDetails.MultibufferAdd | inc/string_buffer.h:86-101 | adds one string and reports whether it fitted |
| ExtraDetails.ExtraDetails.MultibufferAppend | inc/string_buffer.h:103-110 | goes on at the terminator of the last string |
| ExtraDetails.ExtraDetails.Get | inc/string_buffer.h:81-84 | the C strings at an extra's pointers are its name and value |
| Requests.Request.RequestHeadersDone | src/request.c:158-191 | runs once; the properties callback only for a successful reply |
| Requests.Request.CurlReadFunc | src/request.c:208-249 | asks the user for no more than remains and counts down what is taken |
| Requests.Request.CurlWriteFunc | src/request.c:252-283 | data of a successful reply goes to the user, other data to the error parser |
| Requests.Request.RequestFinish | src/request.c:1635-1712 | decides the final status and completes the request |
| Requests.CallbackProtocol | src/request.c:158-283 | in every run the properties callback is made at most once and before any data, data only for replies from 200 to 299, error documents only for others, and the complete callback exactly once and last |
| Requests.ReportedOK | src/request.c:1635-1712 | a run is reported OK exactly when its status is OK once the headers are done, no error code was parsed, and the response code is from 200 to 299 or 100; then every answer about the reply was OK |
| Requests.ReportedForResponse | src/request.c:1646-1704 | when nothing has gone wrong and no error code was parsed, every status is reported exactly for its own response codes, written out |
| Requests.ReportedForErrorCode | src/error_parser.c:155-250 | a parsed error code is reported as itself exactly when the library knows it, and as unknown otherwise |
| Requests.FailingInfoIsReported | src/request.c:167-174 | a run whose response code cannot be got is reported as InternalError |
| Requests.CurlFailureIsReported | src/request.c:1621-1632 | a failure of curl is reported when nothing else has gone wrong |
| Requests.StatusSticks | src/request.c:158-283 | after the headers are done, a status other than OK never changes and no callback is made |
| Requests.StickyStatusIsReported | src/request.c:1635-1712 | it is what the complete callback reports, unless the request context is destroyed first |
| Requests.DataIsPassedOn | src/request.c:252-283 | what curl hands over is passed on in order and without gaps; all of it as long as the status is OK |
| Requests.ReplyIsPassedOn | src/request.c:252-283 | in a whole run a prefix of it is passed on, and all of it when the run is reported OK |
| Requests.RefusedDataEndsIt | src/request.c:282 | curl is told that all data was taken exactly while the status is OK, and otherwise that none was, after which nothing is passed on |
| Requests.UnexpectedData | src/request.c:275-280 | data that nobody asked for is an internal error, and stays one |
| Requests.AbortIsReported | src/request.c:183-190 | an upload that the user aborts before the headers are done is sure to be reported as aborted, whatever curl still does, exactly when curl comes to an end by itself, the response code can be got, and it is not one of success or no properties callback was given |
| Requests.AbortingUpload | src/request.c:236-241 | the same for an upload callback that gives up before the headers are done |
| Requests.LostAbort | src/request.c:183-190 | the concrete run: the abort is overwritten and the request is reported OK |
| Requests.UploadConserved | src/request.c:208-249 | bytes handed to curl and bytes remaining always add up to the declared total |
| Requests.ReadResult | src/request.c:208-249 | a read aborts exactly when the status is not OK afterwards, ends the body without a callback or when nothing remains, and otherwise counts down what it hands over |
| XmlUpload.SetXmlData.DataCallback | src/bucket_metadata.c:267-286 | copies the next bytes of the document, as many as fit or remain |
| XmlUpload.BodyIsDocument | src/bucket_metadata.c:267-286 | in every run what the callback has counted as written and what the request counts as remaining add up to the document, curl has received exactly what was written, and it has the whole document exactly when nothing remains |
| XmlUpload.ReadTakesAll | src/request.c:229-246 | a read gets exactly what it asks for: the callback never runs short, and the clamp on its answer never cuts anything off |
| XmlUpload.LongerTotal | src/bucket_metadata.c:267-286 | the two counts are tied by the declared total alone: with a total of one byte more the request still waits for a byte when the callback has nothing left |
| XmlUpload.UploadProgresses | src/request.c:223-248 | a call with room makes progress while something remains |
| RequestPool.PoolIsSafe | src/request.c:1331-1442 | in every interleaving of any number of threads: count within 0 and 32, pooled requests distinct, none held by two threads, none both pooled and held or used after being freed, and none lost |
| RequestPool.AccessUnderMutex | src/request.c:1331-1442 | in every reachable state only the thread that holds the mutex reads or writes the stack or its count |
| RequestPool.OtherStepsDoNotAccess | src/request.c:1331-1442 | the steps called accesses are all: any other leaves the stack and its count alone and does the same whatever they are |
| RequestPool.PoolIsStack | src/request.c:1331-1442 | seen from outside the mutex, getting takes the request given back last and giving back puts one on top |
| RequestPool.GetComesBack | src/request.c:1328-1360 | a thread that holds the mutex to get a request has one after three steps of its own and has given the mutex back: the top of the pool, or a new one exactly when the pool is empty |
| RequestPool.ReleaseComesBack | src/request.c:1425-1442 | a thread that holds the mutex to give a request back is done after three steps: the request is on top of the pool, or freed exactly when the pool is full |
| RequestPool.StepInv | src/request.c:1331-1442 | every single memory access keeps the invariant |
| RequestPool.CriticalMovesOn | src/request.c:1331-1442 | a thread inside a critical section can always move on |
| RequestPool.RequestStack.Take | src/request.c:1333-1337 | the critical section of request_get pops |
| RequestPool.RequestStack.Put | src/request.c:1427-1441 | the critical section of request_release pushes, or reports a full stack |
| GrowBuffer.GrowBuffer.Append | src/s3.c:433-468 | appends all bytes and keeps one ring of nonempty blocks in which prev undoes next, exactly when the block that is written to has not been read from |
| GrowBuffer.GrowBuffer.AddBlock | src/s3.c:438-455 | a new block goes between the last and the first |
| GrowBuffer.GrowBuffer.Link | src/s3.c:446-449 | the four pointer assignments keep the ring |
| GrowBuffer.GrowBuffer.Read | src/s3.c:471-500 | delivers the first bytes of the first block and takes an emptied block out of the ring |
| GrowBuffer.GrowBuffer.Bypass | src/s3.c:493-495 | the two pointer assignments keep the ring |
| GrowBuffer.GrowBuffer.Destroy | src/s3.c:503-512 | frees every node of the ring once and looks at none after that |
| ByteQueue.RunIsFifo | src/s3.c:433-500 | in every run of appends and reads, what was delivered followed by what is left is what was there followed by what was appended |
| ByteQueue.ReadContents | src/s3.c:471-500 | a read delivers a prefix of the contents, and something whenever there is something and room for it |
| ByteQueue.DrainedByReads | src/s3.c:471-500 | repeated reads with any buffer deliver everything |
| ByteQueue.AppendsThenReads | src/s3.c:2353-2369 | the way the program uses it, all appends before all reads, always meets the condition of append |
| ByteQueue.WriteIsAppend | src/s3.c:462 | writing at data[size] extends what the block holds, whatever is written, exactly when the block has not been read from |
| Multipart.SendParts | src/s3.c:2497-2557 | the loop sends exactly the parts of the tiling |
| Multipart.PartsTile | src/s3.c:2437-2557 | parts are numbered from 1, nonempty, at most one chunk long, adjacent, and cover the object from its first to its last byte |
| Multipart.EachByteOnce | src/s3.c:2437-2557 | every byte is in exactly one part |
| Multipart.TilingTotal | src/s3.c:2437-2557 | the lengths add up to the length of the object |
| Multipart.CopyTiles | src/s3.c:2528-2542 | the ranges that a copy requests are exactly the parts if and only if the last part is not a single byte |
| CommitUpload.BuildCommit | src/s3.c:2559-2573 | when every printed part is shorter than its buffer of 256 characters, the queue holds exactly the commit document, and size is its length |
| CommitUpload.PrintedCommit | src/s3.c:2559-2572 | the document, tag by tag |
| CommitUpload.CommitListsParts | src/s3.c:2564-2570 | the document, read back, lists the parts 1, 2, ... in order, each with its entity tag |
| CommitUpload.UploadManager.PutXmlCallback | src/s3.c:2098-2110 | what is handed over and what remains make up what there was, the count stays equal to what the queue holds, and there is progress |
| CommitUpload.SendCommit | src/s3.c:2575-2579 | asked with buffers of any sizes, what was sent and what is left make up the document; all is sent after at most as many calls as it has bytes |

## Left out

- libcurl, libxml2 and OpenSSL: curl calls back in any order and with any sizes; libxml2 is any source of well-nested events, with names free of "/" and terminators, and text cut anywhere; hashing is not modelled.
- Memory: allocation never fails, and no address is compared except those of ring nodes.
- XmlText.Scan: stands for libxml2 only on text without entities, comments and carriage returns, which is what the library prints for plain strings.
- The path limit: the theorems about whole documents assume that the paths of their elements fit the 512-byte path buffer; RunIsEval covers documents that do not fit.
- The range header and the three time headers, whose text is made of numbers and dates; the text of all standard headers enters `AmzHeaders` as it is when it gets signed.
- StandardHeaders.ComposeHostHeader: requires a bucket in virtual-host style, because a missing name is printed without a look at the pointer.
- request_curl_code_to_status: which result of curl becomes which status; `Requests` takes the status.
- AmzHeaders.RequestComputedValues.CanonicalizeSignatureHeaders: requires that the collected lines, unfolded and with repeated names, fit the two result buffers, because the source does not check it; that the last append has found room, because what is behind the last string is memory that nobody has written; and a blank after every colon, without which the name loop runs past the terminator (AmzHeaders.NameLoopRunsOn).
- CanonicalHeaders.WriteHeaders: requires the same bounds and the same form of lines, for the same reasons.
- KvSort.HeaderLe: compares characters as unsigned ones; where plain char is signed, keys with characters from 128 on are ordered differently.
- UrlEncoding.UrlEncode: requires room for the encoding of the allowed characters, and tells whether the terminator fits, too.
- QueryComposer.SafeAppend: when the terminator falls behind the array, the encoding is taken to end with the array, as it does if that byte is not written again before it is read.
- CanonicalQuery.CanonicalizeQueryString: a write behind the buffer is reported and not made, so what it does to the fields behind the buffer is not modelled; queries are made of nonempty "name=value" tokens, as all composed ones are.
- SignedRequests.ListPartsSigned: the upload ID goes into the sub-resource without percent-encoding; the statement is about upload IDs without "&".
- Presigned query strings, whose X-Amz- parameters are not part of the canonical query.
- ListBucketData, ConvertAclData and ListPartsData: their string buffers are values inside the structures; the characters of such a buffer in memory are the subject of `StringBuffers.StringBuffer`.
- ConvertAclData.ConvertAclData.AddText: after an owner string has overflowed, the source keeps the full length and the model the capacity; no callback is made after that.
- parseIso8601Time: times stay text.
- Common prefixes of multipart upload listings, the access logging documents, and the text format for access control lists of the command line program.
- ExtraDetails.ExtraDetails.AddUnknown: promises nothing after a write behind the array of extras.
- ErrorParser.ErrorDetails: between 9 and 128 runs its statement about extras is about the code's arithmetic, since the array has been left by then; beyond 128 the extras are those of ErrorParser.UnknownAll.
- Requests.Environment: the error parser is an arbitrary function of what it has been fed, so that its contract here does not depend on `ErrorParser`.
- The early returns of request_perform, which call the complete callback without a Request, and the list of requests in a request context.
- RequestPool: destroying the pool at shutdown, which takes no lock.
- Multipart.SendParts: retries of a part, and resumed uploads, whose first part number comes from a part listing; the number of parts is a C int, so lengths up to 2147483647 parts are covered.
- GrowBuffer.GrowBuffer.Append: promises nothing when the block that is written to has been read from.
- CommitUpload.BuildCommit: stops at a part that does not fit its buffer of 256 characters; what is behind that buffer is not modelled.
- Command line parsing, progress output, and everything else of the program in src/s3.c.
