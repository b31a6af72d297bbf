/** Values shared by the closet service: the stored entities, the requests and
    responses of the service, the error kinds it reports, and the failures the
    two repositories may inject into a call. */
module Definitions {

  newtype byte = b: int | 0 <= b < 256

  type Bytes = seq<byte>

  datatype Option<+T> = None | Some(value: T)

  /** A value or the error that stopped the call. */
  datatype Result<+T> = Success(value: T) | Failure(error: Error)

  /** Go's bare `error` return: nil (Pass) or an error. */
  datatype Outcome = Pass | Fail(error: Error)

  /** Error kinds callers can tell apart. Wrapping with %w keeps the kind, so a
      wrapped error is modelled by the error it wraps. The three untyped
      "empty" errors of the source are given a kind per sequence; anything
      else a collaborator reports is Unknown. */
  datatype Error =
    | UserNotFound(user: string)
    | ResourceUnavailable(server: string)
    | NoSuchFileOrDirectory(file: string)
    | DuplicateFile(file: string)
    | EmptyCloset
    | EmptyOutfits
    | Unknown(detail: string)

  /** One clothing entry; its two images live in the image repository under
      mainFile and labelFile. labelText is filled in by recognition. */
  datatype Wardrobe = Wardrobe(
    identifier: string,
    mainFile: string,
    labelFile: string,
    description: string,
    labelText: string)

  datatype Outfit = Outfit(
    identifier: string,
    topId: string,
    bottomId: string,
    description: string,
    likeCount: int,
    dislikeCount: int)

  /** The document the closet repository stores per user. */
  datatype WardrobeCloset = WardrobeCloset(user: string, wardrobes: seq<Wardrobe>, outfits: seq<Outfit>)

  /** An uploaded multipart image: either its content or the error Open() reports. */
  datatype Upload = Readable(content: Bytes) | Unreadable(error: Error)

  datatype NewWardrobeRequest = NewWardrobeRequest(
    user: string,
    description: string,
    mainImageMime: Upload,
    labelImageMime: Upload,
    labelImage: Bytes)

  datatype NewOutfitRequest = NewOutfitRequest(
    user: string,
    topId: string,
    bottomId: string,
    description: string)

  /** GetWardrobeResponse: what a reader sees of a Wardrobe. */
  datatype WardrobeView = WardrobeView(id: string, description: string, mainImage: string, labelImage: string)

  /** GetOutfitResponse: what a reader sees of an Outfit. */
  datatype OutfitView = OutfitView(
    id: string,
    topId: string,
    bottomId: string,
    description: string,
    likeCount: int,
    dislikeCount: int)

  /** The recognition request published on the outbound channel (the image
      travels base64-encoded inside JSON; the encoding is not modelled). */
  datatype LabelToTextRequest = LabelToTextRequest(user: string, id: string, rawImage: Bytes)

  /** A write that reached the closet repository: an insert or a replace. */
  datatype DbWrite = Add(user: string, closet: WardrobeCloset) | Update(user: string, closet: WardrobeCloset)

  /** The failures the environment injects into one call:
      get      — the closet repository's Get fails with this error;
      persist  — its Add or Update fails with this error;
      fileLookup, fileWrite, fileDelete — the image repository's GetFile,
               AddFileFromFile and DeleteFile fail on these keys with these errors;
      publish  — publishing the recognition request fails. */
  datatype Faults = Faults(
    get: Option<Error>,
    persist: Option<Error>,
    fileLookup: map<string, Error>,
    fileWrite: map<string, Error>,
    fileDelete: map<string, Error>,
    publish: Option<Error>)

  const NoFaults: Faults := Faults(None, None, map[], map[], map[], None)

  /** The closet repository's Get: an injected failure, the stored closet, or
      UserNotFound for a user with no closet. */
  function Lookup(closets: map<string, WardrobeCloset>, user: string, faults: Faults): (r: Result<WardrobeCloset>)
    ensures faults.get == None ==> (r.Success? <==> user in closets)
    ensures r.Success? ==> user in closets && r.value == closets[user]
    ensures faults.get == None && user !in closets ==> r == Failure(UserNotFound(user))
  {
    if faults.get.Some? then Failure(faults.get.value)
    else if user in closets then Success(closets[user])
    else Failure(UserNotFound(user))
  }

  /** The image repository's GetFile: an injected failure, the stored bytes,
      or NoSuchFileOrDirectory for an absent name. */
  function FileLookup(files: map<string, Bytes>, key: string, faults: Faults): (r: Result<Bytes>)
    ensures r.Success? ==> key in files && r.value == files[key]
    ensures key !in faults.fileLookup ==> (r.Success? <==> key in files)
    ensures key !in faults.fileLookup && key !in files ==> r == Failure(NoSuchFileOrDirectory(key))
  {
    if key in faults.fileLookup then Failure(faults.fileLookup[key])
    else if key in files then Success(files[key])
    else Failure(NoSuchFileOrDirectory(key))
  }
}
