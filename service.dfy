/** The closet service (wardrobeService): sequential read-modify-write
    operations over the closet repository and the image repository. Each
    mutating operation runs atomically, as the service lock makes it; the
    lock itself is not modelled. */
module Service {
  import opened Definitions
  import opened ClosetSeq
  import opened FileKeys
  import opened LabelText

  /** The image repository's contents after DeleteFile was called on each of
      keys: every key that exists and whose deletion does not fail is gone. */
  function AfterDeletes(files: map<string, Bytes>, keys: seq<string>, faults: Faults): (r: map<string, Bytes>) {
    files - (set k | k in keys && k !in faults.fileDelete)
  }

  /** Deleting keys one batch after another is deleting the concatenation. */
  lemma AfterDeletesAppend(files: map<string, Bytes>, keys: seq<string>, more: seq<string>, faults: Faults)
    ensures AfterDeletes(AfterDeletes(files, keys, faults), more, faults) == AfterDeletes(files, keys + more, faults)
  {
    var a := set x | x in keys && x !in faults.fileDelete;
    var b := set x | x in more && x !in faults.fileDelete;
    assert (set x | x in keys + more && x !in faults.fileDelete) == a + b;
  }

  /** One step of AddWardrobe's duplicate check: a missing file is what is
      wanted, an existing one is a DuplicateFile, any other lookup error is
      returned. */
  function AbsenceCheck(files: map<string, Bytes>, key: string, faults: Faults): (r: Outcome) {
    match FileLookup(files, key, faults)
    case Success(_) => Fail(DuplicateFile(key))
    case Failure(e) => if e.NoSuchFileOrDirectory? then Pass else Fail(e)
  }

  /** The duplicate check over a list of keys, in order: the first key whose
      check fails decides the outcome. */
  function AbsentAll(files: map<string, Bytes>, keys: seq<string>, faults: Faults): (r: Outcome) {
    if keys == [] then Pass
    else if AbsenceCheck(files, keys[0], faults).Fail? then AbsenceCheck(files, keys[0], faults)
    else AbsentAll(files, keys[1..], faults)
  }

  /** The duplicate check passes exactly when every key is absent without a
      lookup error; when it fails, it reports the check of one of the keys. */
  lemma {:induction false} AbsentAllOutcome(files: map<string, Bytes>, keys: seq<string>, faults: Faults)
    ensures AbsentAll(files, keys, faults) == Pass <==> forall k :: k in keys ==> AbsenceCheck(files, k, faults) == Pass
    ensures AbsentAll(files, keys, faults).Fail? ==>
              exists k :: k in keys && AbsentAll(files, keys, faults) == AbsenceCheck(files, k, faults)
  {
    if keys != [] {
      AbsentAllOutcome(files, keys[1..], faults);
      assert forall k :: k in keys <==> k == keys[0] || k in keys[1..];
    }
  }

  /** Everything AddWardrobe checks before it writes, in the order it checks:
      the closet lookup (only UserNotFound is tolerated), the two derived
      keys, and opening the two uploads. */
  function AddWardrobeChecks(closets: map<string, WardrobeCloset>, files: map<string, Bytes>,
                             req: NewWardrobeRequest, imageFile: string, labelFile: string,
                             faults: Faults): (r: Outcome)
  {
    var lookup := Lookup(closets, req.user, faults);
    if lookup.Failure? && !lookup.error.UserNotFound? then Fail(lookup.error)
    else if AbsentAll(files, [imageFile, labelFile], faults).Fail? then AbsentAll(files, [imageFile, labelFile], faults)
    else if req.mainImageMime.Unreadable? then Fail(req.mainImageMime.error)
    else if req.labelImageMime.Unreadable? then Fail(req.labelImageMime.error)
    else Pass
  }

  /** The closet AddWardrobe appends to: the stored one, or a new empty
      closet for a user the repository does not know. */
  function BaseCloset(closets: map<string, WardrobeCloset>, user: string, faults: Faults): (r: WardrobeCloset) {
    match Lookup(closets, user, faults)
    case Success(wc) => wc
    case Failure(_) => WardrobeCloset(user, [], [])
  }

  function WardrobeViewOf(w: Wardrobe): (r: WardrobeView) {
    WardrobeView(w.identifier, w.description, w.mainFile, w.labelFile)
  }

  function OutfitViewOf(o: Outfit): (r: OutfitView) {
    OutfitView(o.identifier, o.topId, o.bottomId, o.description, o.likeCount, o.dislikeCount)
  }

  /** AddWardrobe refuses, before writing, a lookup failure other than
      UserNotFound, an existing image or label file (as DuplicateFile naming
      that key), a file lookup error other than NoSuchFileOrDirectory on
      either key, and an upload that cannot be opened. */
  lemma AddWardrobeRejects(closets: map<string, WardrobeCloset>, files: map<string, Bytes>,
                           req: NewWardrobeRequest, imageFile: string, labelFile: string, faults: Faults)
    ensures faults.get.Some? && !faults.get.value.UserNotFound? ==>
              AddWardrobeChecks(closets, files, req, imageFile, labelFile, faults) == Fail(faults.get.value)
    ensures faults.get == None && imageFile in files && imageFile !in faults.fileLookup ==>
              AddWardrobeChecks(closets, files, req, imageFile, labelFile, faults) == Fail(DuplicateFile(imageFile))
    ensures faults.get == None && imageFile !in files && imageFile !in faults.fileLookup &&
            labelFile in files && labelFile !in faults.fileLookup ==>
              AddWardrobeChecks(closets, files, req, imageFile, labelFile, faults) == Fail(DuplicateFile(labelFile))
    ensures faults.get == None && imageFile in faults.fileLookup && !faults.fileLookup[imageFile].NoSuchFileOrDirectory? ==>
              AddWardrobeChecks(closets, files, req, imageFile, labelFile, faults) == Fail(faults.fileLookup[imageFile])
    ensures faults.get == None && AbsenceCheck(files, imageFile, faults) == Pass &&
            labelFile in faults.fileLookup && !faults.fileLookup[labelFile].NoSuchFileOrDirectory? ==>
              AddWardrobeChecks(closets, files, req, imageFile, labelFile, faults) == Fail(faults.fileLookup[labelFile])
    // with both keys free, an upload that cannot be opened is returned, main image first
    ensures var free := (faults.get == None || faults.get.value.UserNotFound?) &&
                        AbsenceCheck(files, imageFile, faults) == Pass && AbsenceCheck(files, labelFile, faults) == Pass;
            free && req.mainImageMime.Unreadable? ==>
              AddWardrobeChecks(closets, files, req, imageFile, labelFile, faults) == Fail(req.mainImageMime.error)
    ensures var free := (faults.get == None || faults.get.value.UserNotFound?) &&
                        AbsenceCheck(files, imageFile, faults) == Pass && AbsenceCheck(files, labelFile, faults) == Pass;
            free && req.mainImageMime.Readable? && req.labelImageMime.Unreadable? ==>
              AddWardrobeChecks(closets, files, req, imageFile, labelFile, faults) == Fail(req.labelImageMime.error)
    ensures AddWardrobeChecks(closets, files, req, imageFile, labelFile, faults) == Pass <==>
              (faults.get == None || faults.get.value.UserNotFound?) &&
              AbsenceCheck(files, imageFile, faults) == Pass && AbsenceCheck(files, labelFile, faults) == Pass &&
              req.mainImageMime.Readable? && req.labelImageMime.Readable?
  {
    var keys := [imageFile, labelFile];
    assert keys[0] == imageFile && keys[1..] == [labelFile] && [labelFile][1..] == [];
    assert AbsentAll(files, [labelFile], faults) == AbsenceCheck(files, labelFile, faults);
    assert AbsentAll(files, keys, faults) ==
             if AbsenceCheck(files, imageFile, faults).Fail? then AbsenceCheck(files, imageFile, faults)
             else AbsenceCheck(files, labelFile, faults);
  }

  /** Dropping entries from one closet keeps every remaining entry's keys
      derived from its owner and identifier. */
  lemma DeleteKeepsKeys(digest: string -> string, closets: map<string, WardrobeCloset>, user: string, id: string)
    requires KeysDerived(digest, closets) && user in closets
    ensures KeysDerived(digest, closets[user := closets[user].(wardrobes := KeepOthers(closets[user].wardrobes, WardrobeId, id))])
  {
    KeepOthersMembers(closets[user].wardrobes, WardrobeId, id);
  }

  /** With an injective digest and generated identifiers, the files a
      delete releases belong to no entry that survives it, in this closet or
      any other: DeleteWardrobe never takes away an image still referenced. */
  lemma DeleteReleasesOnlyOwnFiles(digest: string -> string, closets: map<string, WardrobeCloset>,
                                   user: string, id: string)
    requires Injective(digest) && KeysDerived(digest, closets)
    requires forall u, w :: u in closets && w in closets[u].wardrobes ==> '_' !in w.identifier
    requires user in closets
    ensures var ws := closets[user].wardrobes;
            var after := closets[user := closets[user].(wardrobes := KeepOthers(ws, WardrobeId, id))];
            forall k, u, w :: k in RemovedFileKeys(ws, id) && u in after && w in after[u].wardrobes ==>
              k != w.mainFile && k != w.labelFile
  {
    var ws := closets[user].wardrobes;
    var after := closets[user := closets[user].(wardrobes := KeepOthers(ws, WardrobeId, id))];
    KeepOthersMembers(ws, WardrobeId, id);
    forall k, u, w | k in RemovedFileKeys(ws, id) && u in after && w in after[u].wardrobes
      ensures k != w.mainFile && k != w.labelFile
    {
      var v :| v in ws && v.identifier == id && (k == v.mainFile || k == v.labelFile);
      assert w in closets[u].wardrobes;
      KeysDistinct(digest, user, id, u, w.identifier);
      KeysDistinct(digest, u, w.identifier, user, id);
    }
  }

  /** The compaction loop of DeleteWardrobe and DeleteOutfit over the slice
      a (tmp := s[:0], then append every element to keep): keeps the elements
      whose identifier differs from id at the front of a, in order; returns
      how many were kept. */
  method Compact<T(!new)>(a: array<T>, idOf: T -> string, id: string) returns (n: nat)
    modifies a
    ensures n <= a.Length && a[..n] == KeepOthers(old(a[..]), idOf, id)
  {
    ghost var s := a[..];
    n := 0;
    for i := 0 to a.Length
      invariant n <= i
      invariant a[..n] == KeepOthers(s[..i], idOf, id)
      invariant forall k :: i <= k < a.Length ==> a[k] == s[k]
    {
      assert s[..i + 1] == s[..i] + [s[i]];
      assert s[..i + 1][..i] == s[..i];
      var x := a[i];
      if idOf(x) != id {
        a[n] := x;
        n := n + 1;
      }
    }
    assert s[..a.Length] == s;
  }

  /** The loop of updateWardrobeLabelText over the slice a: rewrites every
      entry in place, setting labelText on those whose identifier is id;
      returns the length of the rewritten slice, which is all of a. */
  method SetLabelText(a: array<Wardrobe>, id: string, text: string) returns (n: nat)
    modifies a
    ensures n == a.Length && a[..] == WithLabelText(old(a[..]), id, text)
  {
    ghost var ws := a[..];
    n := 0;
    for i := 0 to a.Length
      invariant n == i
      invariant a[..n] == WithLabelText(ws[..i], id, text)
      invariant forall k :: i <= k < a.Length ==> a[k] == ws[k]
    {
      assert ws[..i + 1][..i] == ws[..i];
      var ward := a[i];
      if ward.identifier == id {
        ward := ward.(labelText := text);
      }
      a[n] := ward;
      n := n + 1;
    }
    assert ws[..a.Length] == ws;
    assert a[..n] == a[..];
  }

  class WardrobeService {
    /** The closet repository: one closet per user. */
    var closets: map<string, WardrobeCloset>
    /** The image repository: file key to content. */
    var files: map<string, Bytes>
    /** The recognition requests published on the outbound channel. */
    var published: seq<LabelToTextRequest>
    /** Every Add/Update that reached the closet repository, in order. */
    ghost var writes: seq<DbWrite>
    /** Every DeleteFile call made on the image repository, in order. */
    ghost var deleteRequests: seq<string>
    /** The hex MD5 digest used to derive file keys. */
    const digest: string -> string

    constructor (closets0: map<string, WardrobeCloset>, files0: map<string, Bytes>, digest0: string -> string)
      ensures closets == closets0 && files == files0 && digest == digest0
      ensures published == [] && writes == [] && deleteRequests == []
    {
      closets, files, digest := closets0, files0, digest0;
      published, writes, deleteRequests := [], [], [];
    }

    ghost function DbState(): (r: Db)
      reads this
    {
      Db(closets, writes)
    }

    /** The closet repository's Add or Update: stores the closet under the
        user, unless the injected persist failure occurs. */
    method Persist(write: DbWrite, faults: Faults) returns (r: Outcome)
      modifies this
      ensures faults.persist.Some? ==> r == Fail(faults.persist.value) && unchanged(this)
      ensures faults.persist == None ==>
                r == Pass && closets == old(closets)[write.user := write.closet] && writes == old(writes) + [write]
      ensures files == old(files) && published == old(published) && deleteRequests == old(deleteRequests)
    {
      if faults.persist.Some? {
        return Fail(faults.persist.value);
      }
      closets := closets[write.user := write.closet];
      writes := writes + [write];
      r := Pass;
    }

    /** The image repository's AddFileFromFile: creates or truncates the file. */
    method AddFileFromFile(key: string, content: Bytes, faults: Faults) returns (r: Outcome)
      modifies this
      ensures key in faults.fileWrite ==> r == Fail(faults.fileWrite[key]) && unchanged(this)
      ensures key !in faults.fileWrite ==> r == Pass && files == old(files)[key := content]
      ensures closets == old(closets) && writes == old(writes)
      ensures published == old(published) && deleteRequests == old(deleteRequests)
    {
      if key in faults.fileWrite {
        return Fail(faults.fileWrite[key]);
      }
      files := files[key := content];
      r := Pass;
    }

    /** The image repository's DeleteFile: an absent name reports
        NoSuchFileOrDirectory; the call is recorded whatever it returns. */
    method DeleteFile(key: string, faults: Faults) returns (r: Outcome)
      modifies this
      ensures deleteRequests == old(deleteRequests) + [key]
      ensures files == AfterDeletes(old(files), [key], faults)
      ensures r == if key in faults.fileDelete then Fail(faults.fileDelete[key])
                   else if key in old(files) then Pass
                   else Fail(NoSuchFileOrDirectory(key))
      ensures closets == old(closets) && writes == old(writes) && published == old(published)
    {
      deleteRequests := deleteRequests + [key];
      if key in faults.fileDelete {
        return Fail(faults.fileDelete[key]);
      }
      if key !in files {
        return Fail(NoSuchFileOrDirectory(key));
      }
      files := files - {key};
      r := Pass;
    }

    /** sendLabel: publish the recognition request for a new entry. */
    method SendLabel(user: string, id: string, image: Bytes, faults: Faults) returns (r: Outcome)
      modifies this
      ensures faults.publish.Some? ==> r == Fail(faults.publish.value) && unchanged(this)
      ensures faults.publish == None ==>
                r == Pass && published == old(published) + [LabelToTextRequest(user, id, image)]
      ensures closets == old(closets) && files == old(files)
      ensures writes == old(writes) && deleteRequests == old(deleteRequests)
    {
      if faults.publish.Some? {
        return Fail(faults.publish.value);
      }
      published := published + [LabelToTextRequest(user, id, image)];
      r := Pass;
    }

    /** The duplicate check of AddWardrobe: look every key up in the image
        repository, in order; an existing file is a DuplicateFile, a missing
        one is what is wanted, any other lookup error is returned. */
    method CheckFilesAbsent(keys: seq<string>, faults: Faults) returns (r: Outcome)
      ensures r == AbsentAll(files, keys, faults)
    {
      for i := 0 to |keys|
        invariant AbsentAll(files, keys, faults) == AbsentAll(files, keys[i..], faults)
      {
        assert keys[i..][1..] == keys[i + 1..];
        match FileLookup(files, keys[i], faults) {
          case Success(_) =>
            return Fail(DuplicateFile(keys[i]));
          case Failure(e) =>
            if !e.NoSuchFileOrDirectory? {
              return Fail(e);
            }
        }
      }
      r := Pass;
    }

    /** AddWardrobe: the generated identifier is the parameter id. */
    method AddWardrobe(req: NewWardrobeRequest, id: string, faults: Faults) returns (r: Outcome)
      modifies this
      // Anything that fails before the first write leaves both stores as they were.
      ensures var checks := AddWardrobeChecks(old(closets), old(files), req,
                              ImageFileName(digest, req.user, id), LabelFileName(digest, req.user, id), faults);
              checks.Fail? ==> r == checks && unchanged(this)
      // The main image cannot be written: nothing has changed.
      ensures var img := ImageFileName(digest, req.user, id);
              AddWardrobeChecks(old(closets), old(files), req, img, LabelFileName(digest, req.user, id), faults) == Pass &&
              img in faults.fileWrite ==>
                r == Fail(faults.fileWrite[img]) && unchanged(this)
      // The label image cannot be written: the main image stays, no closet is persisted.
      ensures var img, lbl := ImageFileName(digest, req.user, id), LabelFileName(digest, req.user, id);
              AddWardrobeChecks(old(closets), old(files), req, img, lbl, faults) == Pass &&
              img !in faults.fileWrite && lbl in faults.fileWrite ==>
                && r == Fail(faults.fileWrite[lbl])
                && files == old(files)[img := req.mainImageMime.content]
                && closets == old(closets) && writes == old(writes) && published == old(published)
      // Both images are written; the closet with the new entry appended last is
      // inserted (unknown user) or replaced (known user); a failed publish
      // still succeeds, and a failed persist leaves the images in place.
      ensures var img, lbl := ImageFileName(digest, req.user, id), LabelFileName(digest, req.user, id);
              var base := BaseCloset(old(closets), req.user, faults);
              var entry := Wardrobe(id, img, lbl, req.description, "");
              var stored := base.(wardrobes := base.wardrobes + [entry]);
              var write := if Lookup(old(closets), req.user, faults).Failure? then Add(req.user, stored)
                           else Update(req.user, stored);
              AddWardrobeChecks(old(closets), old(files), req, img, lbl, faults) == Pass &&
              img !in faults.fileWrite && lbl !in faults.fileWrite ==>
                && files == old(files)[img := req.mainImageMime.content][lbl := req.labelImageMime.content]
                && (faults.persist.Some? ==>
                      r == Fail(faults.persist.value) && closets == old(closets) && writes == old(writes) &&
                      published == old(published))
                && (faults.persist == None ==>
                      && r == Pass
                      && closets == old(closets)[req.user := stored]
                      && writes == old(writes) + [write]
                      && published == old(published) +
                           (if faults.publish.Some? then [] else [LabelToTextRequest(req.user, id, req.labelImage)]))
      ensures deleteRequests == old(deleteRequests)
      ensures KeysDerived(digest, old(closets)) ==> KeysDerived(digest, closets)
    {
      var addUser := false;
      var wc: WardrobeCloset;
      match Lookup(closets, req.user, faults) {
        case Success(c) =>
          wc := c;
        case Failure(e) =>
          if e.UserNotFound? {
            addUser := true;
            wc := WardrobeCloset(req.user, [], []);
          } else {
            // ResourceUnavailable and unknown errors, returned wrapped
            return Fail(e);
          }
      }

      var imageFile := ImageFileName(digest, req.user, id);
      var labelFile := LabelFileName(digest, req.user, id);
      var absent := CheckFilesAbsent([imageFile, labelFile], faults);
      if absent.Fail? {
        return absent;
      }

      var mainContent, labelContent;
      match req.mainImageMime {
        case Unreadable(e) => return Fail(e);
        case Readable(c) => mainContent := c;
      }
      match req.labelImageMime {
        case Unreadable(e) => return Fail(e);
        case Readable(c) => labelContent := c;
      }

      wc := wc.(wardrobes := wc.wardrobes + [Wardrobe(id, imageFile, labelFile, req.description, "")]);
      var write := if addUser then Add(req.user, wc) else Update(req.user, wc);
      r := StoreWardrobe(write, imageFile, mainContent, labelFile, labelContent,
                         LabelToTextRequest(req.user, id, req.labelImage), faults);
    }

    /** The writing half of AddWardrobe: the main and then the label image,
        then the closet, then the recognition request. Nothing written is
        rolled back when a later step fails, and a failed publish is only
        logged. */
    method StoreWardrobe(write: DbWrite, imageFile: string, mainContent: Bytes,
                         labelFile: string, labelContent: Bytes, request: LabelToTextRequest,
                         faults: Faults) returns (r: Outcome)
      modifies this
      ensures imageFile in faults.fileWrite ==> r == Fail(faults.fileWrite[imageFile]) && unchanged(this)
      ensures imageFile !in faults.fileWrite && labelFile in faults.fileWrite ==>
                && r == Fail(faults.fileWrite[labelFile])
                && files == old(files)[imageFile := mainContent]
                && closets == old(closets) && writes == old(writes) && published == old(published)
      ensures imageFile !in faults.fileWrite && labelFile !in faults.fileWrite ==>
                && files == old(files)[imageFile := mainContent][labelFile := labelContent]
                && (faults.persist.Some? ==>
                      r == Fail(faults.persist.value) && closets == old(closets) && writes == old(writes) &&
                      published == old(published))
                && (faults.persist == None ==>
                      && r == Pass
                      && closets == old(closets)[write.user := write.closet]
                      && writes == old(writes) + [write]
                      && published == old(published) + (if faults.publish.Some? then [] else [request]))
      ensures deleteRequests == old(deleteRequests)
    {
      r := AddFileFromFile(imageFile, mainContent, faults);
      if r.Fail? {
        return;
      }
      r := AddFileFromFile(labelFile, labelContent, faults);
      if r.Fail? {
        return;
      }
      r := Persist(write, faults);
      if r.Fail? {
        return;
      }
      // a failed publish is only logged
      var sent := SendLabel(request.user, request.id, request.rawImage, faults);
      r := Pass;
    }

    /** DeleteWardrobe: drop every entry with the identifier, in place, and
        ask for both of its files to be deleted (failures only logged). The
        source does both in one loop over the slice; the slice is local to
        the call, so compacting it first and then issuing the deletions in
        the same order has the same effect on both repositories. */
    method DeleteWardrobe(user: string, id: string, faults: Faults) returns (r: Outcome)
      modifies this
      ensures var lookup := Lookup(old(closets), user, faults);
              lookup.Failure? ==> r == Fail(lookup.error) && unchanged(this)
      ensures var lookup := Lookup(old(closets), user, faults);
              lookup.Success? && |lookup.value.wardrobes| == 0 ==> r == Fail(EmptyCloset) && unchanged(this)
      ensures var lookup := Lookup(old(closets), user, faults);
              lookup.Success? && |lookup.value.wardrobes| > 0 ==>
                var ws := lookup.value.wardrobes;
                var stored := lookup.value.(wardrobes := KeepOthers(ws, WardrobeId, id));
                && deleteRequests == old(deleteRequests) + RemovedFileKeys(ws, id)
                && files == AfterDeletes(old(files), RemovedFileKeys(ws, id), faults)
                && published == old(published)
                && (faults.persist.Some? ==>
                      r == Fail(faults.persist.value) && closets == old(closets) && writes == old(writes))
                && (faults.persist == None ==>
                      r == Pass && closets == old(closets)[user := stored] &&
                      writes == old(writes) + [Update(user, stored)])
      ensures KeysDerived(digest, old(closets)) ==> KeysDerived(digest, closets)
    {
      var wc: WardrobeCloset;
      match Lookup(closets, user, faults) {
        case Failure(e) =>
          // UserNotFound, ResourceUnavailable and unknown errors, returned wrapped
          return Fail(e);
        case Success(c) =>
          wc := c;
      }
      if |wc.wardrobes| == 0 {
        return Fail(EmptyCloset);
      }

      var ws := wc.wardrobes;
      var a := new Wardrobe[|ws|](k requires 0 <= k < |ws| => ws[k]);
      assert a[..] == ws;
      var n := Compact(a, WardrobeId, id);
      DeleteRemovedFiles(ws, id, faults);
      if KeysDerived(digest, closets) {
        DeleteKeepsKeys(digest, closets, user, id);
      }
      wc := wc.(wardrobes := a[..n]);

      r := Persist(Update(user, wc), faults);
    }

    /** The file deletions of DeleteWardrobe's loop: both files of every
        entry of ws whose identifier is id, in stored order; their errors are
        only logged. */
    method DeleteRemovedFiles(ws: seq<Wardrobe>, id: string, faults: Faults)
      modifies this
      ensures Released(old(deleteRequests), old(files), ws, id, faults)
      ensures closets == old(closets) && writes == old(writes) && published == old(published)
    {
      ghost var requests0, files0 := deleteRequests, files;
      for i := 0 to |ws|
        invariant Released(requests0, files0, ws[..i], id, faults)
        invariant closets == old(closets) && writes == old(writes) && published == old(published)
      {
        assert ws[..i + 1] == ws[..i] + [ws[i]];
        if ws[i].identifier == id {
          DeleteEntryFiles(ws[i], faults, requests0, files0, ws[..i]);
        } else {
          RemovedFileKeysSnoc(ws[..i], ws[i], id);
        }
      }
      assert ws[..|ws|] == ws;
    }

    /** Every DeleteFile call so far asked for the files of the removed
        entries of prefix, in order, and exactly those that could be deleted
        are gone. */
    ghost predicate Released(requests0: seq<string>, files0: map<string, Bytes>, prefix: seq<Wardrobe>,
                             id: string, faults: Faults)
      reads this
    {
      deleteRequests == requests0 + RemovedFileKeys(prefix, id) &&
      files == AfterDeletes(files0, RemovedFileKeys(prefix, id), faults)
    }

    /** The two DeleteFile calls for a removed entry; their errors are only
        logged. */
    method DeleteEntryFiles(ward: Wardrobe, faults: Faults, ghost requests0: seq<string>,
                            ghost files0: map<string, Bytes>, ghost prefix: seq<Wardrobe>)
      requires Released(requests0, files0, prefix, ward.identifier, faults)
      modifies this
      ensures Released(requests0, files0, prefix + [ward], ward.identifier, faults)
      ensures closets == old(closets) && writes == old(writes) && published == old(published)
    {
      ghost var removed := RemovedFileKeys(prefix, ward.identifier);
      var err := DeleteFile(ward.mainFile, faults);
      err := DeleteFile(ward.labelFile, faults);
      AfterDeletesAppend(files0, removed, [ward.mainFile], faults);
      AfterDeletesAppend(files0, removed + [ward.mainFile], [ward.labelFile], faults);
      assert removed + [ward.mainFile] + [ward.labelFile] == removed + [ward.mainFile, ward.labelFile];
      RemovedFileKeysSnoc(prefix, ward, ward.identifier);
    }

    /** GetWardrobe: the view of the first entry with the identifier. */
    method GetWardrobe(user: string, id: string, faults: Faults) returns (r: Result<WardrobeView>)
      ensures var lookup := Lookup(closets, user, faults);
              lookup.Failure? ==> r == Failure(lookup.error)
      ensures var lookup := Lookup(closets, user, faults);
              lookup.Success? && |lookup.value.wardrobes| == 0 ==> r == Failure(EmptyCloset)
      ensures var lookup := Lookup(closets, user, faults);
              lookup.Success? && |lookup.value.wardrobes| > 0 ==>
                var ws := lookup.value.wardrobes;
                && (r.Success? <==> exists k :: 0 <= k < |ws| && ws[k].identifier == id)
                && (r.Success? ==> exists k :: 0 <= k < |ws| && ws[k].identifier == id &&
                                      (forall j :: 0 <= j < k ==> ws[j].identifier != id) &&
                                      r.value == WardrobeViewOf(ws[k]))
                && (r.Failure? ==> r.error == UserNotFound(user))
    {
      var wc: WardrobeCloset;
      match Lookup(closets, user, faults) {
        case Failure(e) => return Failure(e);
        case Success(c) => wc := c;
      }
      if |wc.wardrobes| == 0 {
        return Failure(EmptyCloset);
      }
      for i := 0 to |wc.wardrobes|
        invariant forall j :: 0 <= j < i ==> wc.wardrobes[j].identifier != id
      {
        var ward := wc.wardrobes[i];
        if ward.identifier == id {
          return Success(WardrobeViewOf(ward));
        }
      }
      r := Failure(UserNotFound(user));
    }

    /** GetAllWardrobe: one view per stored entry, in stored order. */
    method GetAllWardrobe(user: string, faults: Faults) returns (r: Result<seq<WardrobeView>>)
      ensures var lookup := Lookup(closets, user, faults);
              lookup.Failure? ==> r == Failure(lookup.error)
      ensures var lookup := Lookup(closets, user, faults);
              lookup.Success? && |lookup.value.wardrobes| == 0 ==> r == Failure(EmptyCloset)
      ensures var lookup := Lookup(closets, user, faults);
              lookup.Success? && |lookup.value.wardrobes| > 0 ==>
                var ws := lookup.value.wardrobes;
                r.Success? && |r.value| == |ws| &&
                forall k :: 0 <= k < |ws| ==> r.value[k] == WardrobeViewOf(ws[k])
    {
      var wc: WardrobeCloset;
      match Lookup(closets, user, faults) {
        case Failure(e) => return Failure(e);
        case Success(c) => wc := c;
      }
      if |wc.wardrobes| == 0 {
        return Failure(EmptyCloset);
      }
      var wardReqs: seq<WardrobeView> := [];
      for i := 0 to |wc.wardrobes|
        invariant |wardReqs| == i
        invariant forall k :: 0 <= k < i ==> wardReqs[k] == WardrobeViewOf(wc.wardrobes[k])
      {
        wardReqs := wardReqs + [WardrobeViewOf(wc.wardrobes[i])];
      }
      r := Success(wardReqs);
    }

    /** AddOutfit: append one outfit with zero likes and dislikes; a user
        without a closet is refused, never created. */
    method AddOutfit(req: NewOutfitRequest, id: string, faults: Faults) returns (r: Outcome)
      modifies this
      ensures var lookup := Lookup(old(closets), req.user, faults);
              lookup.Failure? ==> r == Fail(lookup.error) && unchanged(this)
      ensures var lookup := Lookup(old(closets), req.user, faults);
              lookup.Success? ==>
                var stored := lookup.value.(outfits := lookup.value.outfits +
                                [Outfit(id, req.topId, req.bottomId, req.description, 0, 0)]);
                && (faults.persist.Some? ==>
                      r == Fail(faults.persist.value) && closets == old(closets) && writes == old(writes))
                && (faults.persist == None ==>
                      r == Pass && closets == old(closets)[req.user := stored] &&
                      writes == old(writes) + [Update(req.user, stored)])
      ensures files == old(files) && published == old(published) && deleteRequests == old(deleteRequests)
      ensures KeysDerived(digest, old(closets)) ==> KeysDerived(digest, closets)
    {
      var wc: WardrobeCloset;
      match Lookup(closets, req.user, faults) {
        case Failure(e) =>
          // UserNotFound included: AddOutfit does not create a closet
          return Fail(e);
        case Success(c) =>
          wc := c;
      }
      wc := wc.(outfits := wc.outfits + [Outfit(id, req.topId, req.bottomId, req.description, 0, 0)]);
      r := Persist(Update(req.user, wc), faults);
    }

    /** DeleteOutfit: drop every outfit with the identifier, in place. */
    method DeleteOutfit(user: string, id: string, faults: Faults) returns (r: Outcome)
      modifies this
      ensures var lookup := Lookup(old(closets), user, faults);
              lookup.Failure? ==> r == Fail(lookup.error) && unchanged(this)
      ensures var lookup := Lookup(old(closets), user, faults);
              lookup.Success? && |lookup.value.outfits| == 0 ==> r == Fail(EmptyOutfits) && unchanged(this)
      ensures var lookup := Lookup(old(closets), user, faults);
              lookup.Success? && |lookup.value.outfits| > 0 ==>
                var stored := lookup.value.(outfits := KeepOthers(lookup.value.outfits, OutfitId, id));
                && (faults.persist.Some? ==>
                      r == Fail(faults.persist.value) && closets == old(closets) && writes == old(writes))
                && (faults.persist == None ==>
                      r == Pass && closets == old(closets)[user := stored] &&
                      writes == old(writes) + [Update(user, stored)])
      ensures files == old(files) && published == old(published) && deleteRequests == old(deleteRequests)
      ensures KeysDerived(digest, old(closets)) ==> KeysDerived(digest, closets)
    {
      var wc: WardrobeCloset;
      match Lookup(closets, user, faults) {
        case Failure(e) => return Fail(e);
        case Success(c) => wc := c;
      }
      if |wc.outfits| == 0 {
        return Fail(EmptyOutfits);
      }

      var os := wc.outfits;
      var a := new Outfit[|os|](k requires 0 <= k < |os| => os[k]);
      assert a[..] == os;
      var n := Compact(a, OutfitId, id);
      wc := wc.(outfits := a[..n]);
      r := Persist(Update(user, wc), faults);
    }

    /** GetOutfit: the view of the first outfit with the identifier. An
        empty outfit sequence is reported with the wardrobe getters' error. */
    method GetOutfit(user: string, id: string, faults: Faults) returns (r: Result<OutfitView>)
      ensures var lookup := Lookup(closets, user, faults);
              lookup.Failure? ==> r == Failure(lookup.error)
      ensures var lookup := Lookup(closets, user, faults);
              lookup.Success? && |lookup.value.outfits| == 0 ==> r == Failure(EmptyCloset)
      ensures var lookup := Lookup(closets, user, faults);
              lookup.Success? && |lookup.value.outfits| > 0 ==>
                var os := lookup.value.outfits;
                && (r.Success? <==> exists k :: 0 <= k < |os| && os[k].identifier == id)
                && (r.Success? ==> exists k :: 0 <= k < |os| && os[k].identifier == id &&
                                      (forall j :: 0 <= j < k ==> os[j].identifier != id) &&
                                      r.value == OutfitViewOf(os[k]))
                && (r.Failure? ==> r.error == UserNotFound(user))
    {
      var wc: WardrobeCloset;
      match Lookup(closets, user, faults) {
        case Failure(e) => return Failure(e);
        case Success(c) => wc := c;
      }
      if |wc.outfits| == 0 {
        // the same untyped error as the wardrobe getters
        return Failure(EmptyCloset);
      }
      for i := 0 to |wc.outfits|
        invariant forall j :: 0 <= j < i ==> wc.outfits[j].identifier != id
      {
        var ot := wc.outfits[i];
        if ot.identifier == id {
          return Success(OutfitViewOf(ot));
        }
      }
      r := Failure(UserNotFound(user));
    }

    /** GetAllOutfits: one view per stored outfit, in stored order. */
    method GetAllOutfits(user: string, faults: Faults) returns (r: Result<seq<OutfitView>>)
      ensures var lookup := Lookup(closets, user, faults);
              lookup.Failure? ==> r == Failure(lookup.error)
      ensures var lookup := Lookup(closets, user, faults);
              lookup.Success? && |lookup.value.outfits| == 0 ==> r == Failure(EmptyOutfits)
      ensures var lookup := Lookup(closets, user, faults);
              lookup.Success? && |lookup.value.outfits| > 0 ==>
                var os := lookup.value.outfits;
                r.Success? && |r.value| == |os| &&
                forall k :: 0 <= k < |os| ==> r.value[k] == OutfitViewOf(os[k])
    {
      var wc: WardrobeCloset;
      match Lookup(closets, user, faults) {
        case Failure(e) => return Failure(e);
        case Success(c) => wc := c;
      }
      if |wc.outfits| == 0 {
        return Failure(EmptyOutfits);
      }
      var otReqs: seq<OutfitView> := [];
      for i := 0 to |wc.outfits|
        invariant |otReqs| == i
        invariant forall k :: 0 <= k < i ==> otReqs[k] == OutfitViewOf(wc.outfits[k])
      {
        otReqs := otReqs + [OutfitViewOf(wc.outfits[i])];
      }
      r := Success(otReqs);
    }

    /** updateWardrobeLabelText: set labelText on the matching entries, in
        place, and replace the closet; follows LabelTextStep. */
    method UpdateWardrobeLabelText(user: string, id: string, text: string, faults: Faults) returns (r: Outcome)
      modifies this
      ensures var step := LabelTextStep(old(DbState()), user, id, text, faults);
              r == step.outcome && closets == step.db.closets && writes == step.db.writes
      ensures files == old(files) && published == old(published) && deleteRequests == old(deleteRequests)
    {
      var wc: WardrobeCloset;
      match Lookup(closets, user, faults) {
        case Failure(e) => return Fail(e);
        case Success(c) => wc := c;
      }
      if |wc.wardrobes| == 0 {
        return Fail(EmptyCloset);
      }

      var ws := wc.wardrobes;
      var a := new Wardrobe[|ws|](k requires 0 <= k < |ws| => ws[k]);
      assert a[..] == ws;
      var n := SetLabelText(a, id, text);
      assert a[..n] == WithLabelText(ws, id, text);
      wc := wc.(wardrobes := a[..n]);
      r := Persist(Update(user, wc), faults);
    }
  }
}
