# Closet service of WardrobeManagerMS, modelled in Dafny

This project models the closet service of WardrobeManagerMS (`pkg/api/wardrobe.go`). The service keeps two keyed stores consistent:

- the **closet repository**, which maps a user to a closet: a wardrobe sequence and an outfit sequence;
- the **image repository**, which maps a file key to bytes.

The model covers:

- the eight service operations: AddWardrobe, DeleteWardrobe, GetWardrobe, GetAllWardrobe, AddOutfit, DeleteOutfit, GetOutfit and GetAllOutfits;
- the recognition write-back `updateWardrobeLabelText`;
- the receive loop of the recognition bridge (`receiveLoop` / `onMessageReceive`);
- the derivation of file keys (`genUniqImageFileName` / `genUniqLabelFileName`).

Modules:

- `Definitions`:
  - the entities, with the fields that `wardrobe.go` actually uses (`Outfits`, `LabelText`, `TopId`/`BottomId`, `LikeCount`/`DislikeCount`);
  - the error kinds;
  - repository lookups with injected failures.
- `ClosetSeq`: the pure sequence transformations that the in-place loops compute, and lemmas about them:
  - filter by identifier;
  - set the label text;
  - the file keys a delete releases.
- `FileKeys`:
  - key derivation, with the MD5/hex digest as a function parameter;
  - the invariant that every stored entry names the keys derived from its owner and identifier;
  - when two keys can coincide.
- `LabelText`: the recognition write-back, as a function of the closet repository's state.
- `Receive`: the receive loop, as a state machine over a finite trace of events (transport error, message, subscription count). It comes with lemmas on how traces compose.
- `Service`:
  - class `WardrobeService`, holding both stores, the published recognition requests, and ghost logs of the writes and delete requests that reached the repositories;
  - one method per operation;
  - the in-place compaction loops, kept on arrays.
- `Bridge`: class `LabelToText`, whose `OnMessageReceive` and `ReceiveLoop` are proved to follow `Receive`.

Repository failures are injected per call through a `Faults` record:

- a closet lookup error;
- a persist error;
- per-key file lookup, write and delete errors;
- a publish error.

An injected failure takes precedence over the map semantics. The generated UUID is an input of AddWardrobe and AddOutfit.

Error kinds:

- Every `%w` wrap keeps the error kind, so the model returns a lookup error unchanged.
- The untyped `Empty closet` error is `EmptyCloset`.
- The untyped `Empty outfits` and `No outfits` errors are `EmptyOutfits`.
- GetOutfit reports an empty outfit sequence with the text `Empty closet` (pkg/api/wardrobe.go:406-408), so the model returns `EmptyCloset` there.

The HTTP handler for deleting an outfit calls `DeleteWardrobe`, not `DeleteOutfit` (pkg/app/handler.go:184). The model covers the service operations themselves, so this does not affect it.

The receive loop handles messages that arrive before any subscription acknowledgement, and ignores every subscription count other than 0 (pkg/api/wardrobe.go:561-578).

## Model

| member | source | states |
|---|---|---|
| Service.AddWardrobeRejects | pkg/api/wardrobe.go:92-137 | AddWardrobe's checks, in order. A lookup error other than `UserNotFound` is returned. An existing image or label key yields `DuplicateFile` naming that key. A file-lookup error other than `NoSuchFileOrDirectory` on either key is returned. With both keys free, the open error of the main upload, then of the label upload, is returned. The checks pass if and only if the lookup succeeds or fails with `UserNotFound`, both keys are absent, and both uploads open. |
| Service.AbsentAllOutcome | pkg/api/wardrobe.go:112-126 | The duplicate check passes exactly when every key passes its check: absent, or an injected `NoSuchFileOrDirectory`. When it fails, it reports the failing check of one of the keys. |
| Service.WardrobeService.CheckFilesAbsent | pkg/api/wardrobe.go:112-126 | The lookup loop over the keys returns the outcome of the first failing key (`DuplicateFile` naming an existing key, or the lookup error), and `Pass` when none fails. It changes nothing. |
| Service.WardrobeService.StoreWardrobe | pkg/api/wardrobe.go:141-174 | A failed main-image write changes nothing. A failed label-image write keeps the main image. A failed persist keeps both images. Otherwise the closet is stored and logged, and the recognition request is published unless publishing fails, which still returns `Pass`. |
| Service.WardrobeService.AddWardrobe | pkg/api/wardrobe.go:80-179 | A failed check leaves both stores unchanged. A failed main-image write changes nothing. A failed label-image write keeps the main image and persists nothing. Otherwise the entry is appended last to the stored closet, or to a new empty closet for `UserNotFound`. The entry has the id, both derived keys, the description and empty label text. It is written with `Add` for an unknown user and `Update` otherwise. A failed persist keeps the images. A failed publish still returns success. Derived keys stay derived. |
| Service.WardrobeService.Persist | pkg/api/wardrobe.go:37-39 | `Add`/`Update` store the closet under its user and log the write, unless the injected persist error is returned (then nothing changes). |
| Service.WardrobeService.AddFileFromFile | pkg/api/wardrobe.go:48 | Creates or replaces the file, unless the injected write error is returned (then nothing changes). |
| Service.WardrobeService.DeleteFile | pkg/repository/filerepository.go:97-110 | Every call is logged. An injected error is returned. An absent key yields `NoSuchFileOrDirectory`. Otherwise the key is removed. |
| Service.WardrobeService.SendLabel | pkg/api/wardrobe.go:601-620 | Publishes exactly one request (user, id, image), unless the injected publish error is returned. |
| Service.WardrobeService.DeleteWardrobe | pkg/api/wardrobe.go:181-232 | A lookup error is returned and an empty wardrobe sequence yields `EmptyCloset`, both with nothing changed. Otherwise a delete is requested for both files of every matching entry, in stored order. Their failures are ignored. The closet is persisted with `Update`, holding exactly the non-matching entries in their order. Derived keys stay derived. |
| Service.Compact | pkg/api/wardrobe.go:204-220 | The in-place `tmp := s[:0]` plus append loop: the kept prefix of the array is exactly the filter of the original contents by identifier. |
| Service.WardrobeService.DeleteRemovedFiles | pkg/api/wardrobe.go:205-215 | The delete requests of the loop are the keys of the matching entries, main then label, in stored order. Exactly the deletable ones are gone. The closet repository is untouched. |
| Service.WardrobeService.DeleteEntryFiles | pkg/api/wardrobe.go:206-215 | One removed entry: requests deletion of its main and then its label file and extends the release record by that entry. |
| Service.DeleteKeepsKeys | pkg/api/wardrobe.go:204-222 | Dropping entries from a closet keeps every remaining entry's keys derived from its owner and identifier. |
| Service.DeleteReleasesOnlyOwnFiles | pkg/api/wardrobe.go:204-215 | With an injective digest and identifiers without '_', no released key is referenced by any entry that survives the delete, in any closet. |
| Service.WardrobeService.GetWardrobe | pkg/api/wardrobe.go:234-266 | A lookup error is returned, and an empty sequence yields `EmptyCloset`. Otherwise the call succeeds exactly when some entry has the id. It returns the projection of the first such entry, and `UserNotFound` when none has the id. The method changes nothing. |
| Service.WardrobeService.GetAllWardrobe | pkg/api/wardrobe.go:268-299 | A lookup error is returned, and an empty sequence yields `EmptyCloset`. Otherwise it returns one projection per entry, of equal length and in stored order. |
| Service.WardrobeService.AddOutfit | pkg/api/wardrobe.go:306-347 | Every lookup error is returned with nothing changed, `UserNotFound` included, so no closet is created. Otherwise exactly one outfit with zero likes and dislikes is appended, and the wardrobes and image repository are untouched. |
| Service.WardrobeService.DeleteOutfit | pkg/api/wardrobe.go:349-390 | A lookup error is returned and an empty outfit sequence yields `EmptyOutfits`, both with nothing changed. Otherwise the closet is persisted with exactly the non-matching outfits, in order. Wardrobes and images are untouched. |
| Service.WardrobeService.GetOutfit | pkg/api/wardrobe.go:392-426 | As GetWardrobe, over the outfit sequence: `EmptyCloset` (the `Empty closet` error) when it is empty, else the first match, else `UserNotFound`. |
| Service.WardrobeService.GetAllOutfits | pkg/api/wardrobe.go:428-461 | As GetAllWardrobe, over the outfit sequence, except that an empty outfit sequence yields `EmptyOutfits` (the `No outfits` error). |
| Service.SetLabelText | pkg/api/wardrobe.go:491-499 | The in-place loop of the write-back: the whole array becomes WithLabelText of its original contents. |
| Service.WardrobeService.UpdateWardrobeLabelText | pkg/api/wardrobe.go:464-510 | Outcome, closets and write log are those of `LabelTextStep` on the state before the call. Files, delete requests and published requests are unchanged. |
| ClosetSeq.KeepOthersMembers | pkg/api/wardrobe.go:204-220 | An element survives the filter exactly when it was in the input and its identifier differs from the deleted one. |
| ClosetSeq.WithLabelText | pkg/api/wardrobe.go:491-499 | Same length. Every matching entry gets the new label text and keeps all its other fields. Every other entry is unchanged. |
| ClosetSeq.RemovedFileKeys | pkg/api/wardrobe.go:205-215 | A key is released exactly when it is the main or label file of an entry with the id. |
| ClosetSeq.KeepOthersAppend | pkg/api/wardrobe.go:204-220 | Filtering distributes over concatenation, so the kept entries stay in their original order. |
| ClosetSeq.KeepOthersUnmatched | pkg/api/wardrobe.go:204-220 | With no entry carrying the id, the sequence is kept as it was. |
| ClosetSeq.KeepOthersIdempotent | pkg/api/wardrobe.go:204-220 | Deleting an id twice is deleting it once. |
| ClosetSeq.RemovedFileKeysUnmatched | pkg/api/wardrobe.go:205-215 | With no entry carrying the id, no file deletion is requested. |
| ClosetSeq.AppendThenDelete | pkg/api/wardrobe.go:152-157 | Appending a new entry (as AddWardrobe does) and then deleting its id gives back the original sequence, and releases exactly that entry's two keys. |
| ClosetSeq.WithLabelTextKeepsKeys | pkg/api/wardrobe.go:491-499 | The write-back keeps each entry's identifier, file keys and description. |
| FileKeys.PreimageInjective | pkg/api/wardrobe.go:651-662 | For identifiers without '_', the hashed string `user + role + id` determines user, role and id. |
| FileKeys.KeysDistinct | pkg/api/wardrobe.go:651-662 | Under an injective digest, an image key never equals a label key. Equal image (or label) keys come from the same user and id. |
| FileKeys.PreimageAmbiguous | pkg/api/wardrobe.go:651-655 | Without that restriction, distinct (user, id) pairs can hash the same string. |
| LabelText.LabelTextFailures | pkg/api/wardrobe.go:471-507 | The write-back fails exactly on a lookup error, an empty wardrobe sequence or a failed `Update`, and then writes nothing. A missing user gives `UserNotFound`. An empty sequence gives `EmptyCloset`. |
| LabelText.LabelTextSuccess | pkg/api/wardrobe.go:491-509 | On success exactly one `Update` is written, for this user. Only the label text of matching entries changes. Length, order, outfits and all other closets are kept. |
| LabelText.LabelTextUnmatched | pkg/api/wardrobe.go:491-501 | With no matching id the closet is persisted unchanged and the call succeeds. |
| LabelText.LabelTextKeepsKeys | pkg/api/wardrobe.go:491-499 | The write-back preserves the derived-keys invariant. |
| Receive.RunAppend | pkg/api/wardrobe.go:561-579 | A trace in two pieces: the second continues from the state the first reached if the loop is still listening, and is never read otherwise. |
| Receive.RunStopsAt | pkg/api/wardrobe.go:562-577 | A transport error or a subscription count of 0 ends the loop. The state is the one reached before it, and nothing after it is applied. |
| Receive.SubscriptionIgnored | pkg/api/wardrobe.go:570-577 | A subscription event with a count other than 0 is a no-op. |
| Receive.FailedMessageDropped | pkg/api/wardrobe.go:566-569 | A message whose decode or write-back fails is dropped, and every later event is processed as if it had not arrived. |
| Receive.MessageApplied | pkg/api/wardrobe.go:566-569 | A successfully handled message is applied before the rest of the trace. |
| Receive.RunKeepsKeys | pkg/api/wardrobe.go:553-580 | The loop preserves the derived-keys invariant. |
| Receive.RunOnlyUpdates | pkg/api/wardrobe.go:553-580 | The loop only appends writes, all of them `Update`. It never creates or removes a closet. |
| Bridge.LabelToText.OnMessageReceive | pkg/api/wardrobe.go:582-599 | A payload that does not decode is returned as an error with nothing changed. Otherwise the write-back runs and its result is returned. It follows `OnMessage`. |
| Bridge.LabelToText.ReceiveLoop | pkg/api/wardrobe.go:553-580 | A failed subscribe returns at once. Otherwise the stop reason and the final closet state are those of `Run` over the trace. Files, published requests and delete requests are untouched. |

## Left out

- The service mutex and the goroutine that runs the receive loop (pkg/api/wardrobe.go:53, 75, 89-90). Each mutating operation is modelled as atomic.
- The Redis dial, subscribe and publish; JSON encoding and decoding; base64; `uuid.New()`. These are foreign libraries:
  - a decoded payload is an `Envelope`, and a failed decode is `Malformed`;
  - the subscribe result and each received event are inputs;
  - a publish is an append to `published` unless it fails;
  - the generated id is a parameter.
- MD5 and hex encoding in the key derivation. The digest is a function parameter, so only determinism and what follows from an injective digest are proved. MD5 itself is not assumed collision-free.
- Opening and copying the multipart uploads. An upload is either its bytes or the error its `Open` returns.
- Logging and the `Error()` message formats. They carry no behaviour.
- `GetFile` (pkg/api/wardrobe.go:301-304): it only forwards to the image repository with a callback.
- `NewWardrobeService` and `newWardrobeLabelToText`: connection wiring. The service constructor takes the initial stores and the digest.
- The HTTP layer, the MongoDB repository and the process entry points.
- Service.WardrobeService.DeleteFile: an absent file's error names the bare key, not the directory-joined path. The error is only logged, so nothing observable differs.
- Aliasing between a closet returned by the repository's `Get` and the stored one. The model treats `Get` as returning a copy, so a failed `Update` leaves the stored closet unchanged. A repository that handed out the stored slice would see it compacted in place even on failure.
- Service.WardrobeService.DeleteWardrobe: the source compacts the slice and issues the file deletions in a single loop. The model compacts first and then issues the same deletions in the same order. The slice is local, so neither repository can tell the difference.
- Bridge.LabelToText.ReceiveLoop: the source loop never ends on its own. The model runs over a finite trace and reports `Listening` when the trace runs out.
- The untyped empty-sequence errors become error kinds. `Empty closet` becomes `EmptyCloset`. `Empty outfits` and `No outfits` both become `EmptyOutfits`. The source returns untyped errors, which a caller can tell apart only by their text.
- The error types are matched by kind. The source's type switches compare exact dynamic types and never unwrap: a closet lookup must return exactly a `*UserNotFound` pointer, and an image lookup exactly a `NoSuchFileOrDirectory` value (pkg/api/wardrobe.go:95, 115). A wrapped error, or a pointer where a value is expected (or the reverse), falls to the `default` branch. The model assumes the repositories return exactly these types.
- Service.WardrobeService.AddFileFromFile: a write is modelled as atomic, so a failed write leaves no file. The file repository creates the file before copying into it (pkg/repository/filerepository.go:115-124), so a failed copy there can leave a created, possibly partial file. AddWardrobe's "a failed main-image write changes nothing" holds only for atomic writes, and the orphaned file is not modelled.
- Definitions.FileLookup: the `NoSuchFileOrDirectory` error of a missing image names the bare key, while the file repository names the directory-joined path (pkg/repository/filerepository.go:61-63). AddWardrobe only tests the error's kind, so nothing it does depends on the name.
- Service.WardrobeService.GetWardrobe and Service.WardrobeService.GetOutfit return the same `UserNotFound(user)` for a missing closet and for a missing entry. The source tells them apart by form. A missing closet gives the repository's `*UserNotFound` pointer, wrapped (pkg/api/wardrobe.go:240-241, 398-399). A missing entry gives a bare `UserNotFound` value (pkg/api/wardrobe.go:265, 425). So `errors.As` with a pointer target matches only the first, and with a value target only the second.
- Service.WardrobeService.Persist: `Add` on a user that already has a closet is modelled as replacing that closet. The source leaves that case to the repository. AddWardrobe reaches it only when the injected lookup failure reports `UserNotFound` for a user who has a closet.
