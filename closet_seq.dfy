/** The sequence transformations the closet service applies to a stored
    closet: dropping the entries with a given identifier (delete paths),
    setting the recognized text of the matching entries (recognition
    write-back), and the file keys a delete releases. They are defined by
    recursion on the last element, the order in which the in-place loops of
    the service build their results. */
module ClosetSeq {
  import opened Definitions

  /** The entries of s whose identifier differs from id, in stored order. */
  function KeepOthers<T(!new)>(s: seq<T>, idOf: T -> string, id: string): (r: seq<T>)
    ensures |r| <= |s|
  {
    if s == [] then []
    else
      var init, last := s[..|s| - 1], s[|s| - 1];
      assert s == init + [last];
      KeepOthers(init, idOf, id) + (if idOf(last) == id then [] else [last])
  }

  function WardrobeId(w: Wardrobe): (r: string) { w.identifier }

  function OutfitId(o: Outfit): (r: string) { o.identifier }

  /** The wardrobe sequence with labelText := text on every entry whose
      identifier is id, everything else as it was. */
  function WithLabelText(ws: seq<Wardrobe>, id: string, text: string): (r: seq<Wardrobe>)
    ensures |r| == |ws|
    ensures forall k :: 0 <= k < |ws| ==>
              r[k] == if ws[k].identifier == id then ws[k].(labelText := text) else ws[k]
  {
    if ws == [] then []
    else
      var last := ws[|ws| - 1];
      WithLabelText(ws[..|ws| - 1], id, text) + [if last.identifier == id then last.(labelText := text) else last]
  }

  /** The file keys DeleteWardrobe asks the image repository to delete: the
      main and then the label key of every matching entry, in stored order. */
  function RemovedFileKeys(ws: seq<Wardrobe>, id: string): (r: seq<string>)
    ensures forall k :: k in r <==>
              exists w :: w in ws && w.identifier == id && (k == w.mainFile || k == w.labelFile)
  {
    if ws == [] then []
    else
      var init, last := ws[..|ws| - 1], ws[|ws| - 1];
      assert ws == init + [last];
      RemovedFileKeys(init, id) + (if last.identifier == id then [last.mainFile, last.labelFile] else [])
  }

  /** An element survives the filter exactly when it was there and its
      identifier differs from id. */
  lemma {:induction false} KeepOthersMembers<T(!new)>(s: seq<T>, idOf: T -> string, id: string)
    ensures forall x :: x in KeepOthers(s, idOf, id) <==> x in s && idOf(x) != id
  {
    if s != [] {
      var init, last := s[..|s| - 1], s[|s| - 1];
      assert s == init + [last];
      KeepOthersMembers(init, idOf, id);
    }
  }

  /** One more element at the end: kept or not by its own identifier. */
  lemma KeepOthersSnoc<T(!new)>(s: seq<T>, x: T, idOf: T -> string, id: string)
    ensures KeepOthers(s + [x], idOf, id) == KeepOthers(s, idOf, id) + (if idOf(x) == id then [] else [x])
  {
    assert (s + [x])[..|s|] == s;
  }

  /** One more entry at the end: its two keys follow if it matches. */
  lemma RemovedFileKeysSnoc(ws: seq<Wardrobe>, w: Wardrobe, id: string)
    ensures RemovedFileKeys(ws + [w], id) ==
              RemovedFileKeys(ws, id) + (if w.identifier == id then [w.mainFile, w.labelFile] else [])
  {
    assert (ws + [w])[..|ws|] == ws;
  }

  /** Filtering distributes over concatenation: the kept entries of s + t are
      those of s followed by those of t, so the original order survives. */
  lemma {:induction false} KeepOthersAppend<T(!new)>(s: seq<T>, t: seq<T>, idOf: T -> string, id: string)
    ensures KeepOthers(s + t, idOf, id) == KeepOthers(s, idOf, id) + KeepOthers(t, idOf, id)
  {
    if t == [] {
      assert s + t == s;
    } else {
      var init, last := t[..|t| - 1], t[|t| - 1];
      assert t == init + [last];
      assert s + t == (s + init) + [last];
      KeepOthersSnoc(s + init, last, idOf, id);
      KeepOthersSnoc(init, last, idOf, id);
      KeepOthersAppend(s, init, idOf, id);
    }
  }

  /** With no entry carrying id, nothing is removed. */
  lemma {:induction false} KeepOthersUnmatched<T(!new)>(s: seq<T>, idOf: T -> string, id: string)
    requires forall x :: x in s ==> idOf(x) != id
    ensures KeepOthers(s, idOf, id) == s
  {
    if s != [] {
      var init := s[..|s| - 1];
      assert forall x :: x in init ==> x in s;
      KeepOthersUnmatched(init, idOf, id);
      assert s == init + [s[|s| - 1]];
    }
  }

  /** Deleting the same identifier twice is the same as deleting it once. */
  lemma KeepOthersIdempotent<T(!new)>(s: seq<T>, idOf: T -> string, id: string)
    ensures KeepOthers(KeepOthers(s, idOf, id), idOf, id) == KeepOthers(s, idOf, id)
  {
    KeepOthersMembers(s, idOf, id);
    KeepOthersUnmatched(KeepOthers(s, idOf, id), idOf, id);
  }

  /** With no matching entry, a delete releases no file. */
  lemma {:induction false} RemovedFileKeysUnmatched(ws: seq<Wardrobe>, id: string)
    requires forall w :: w in ws ==> w.identifier != id
    ensures RemovedFileKeys(ws, id) == []
  {
    if ws != [] {
      var init := ws[..|ws| - 1];
      assert forall w :: w in init ==> w in ws;
      RemovedFileKeysUnmatched(init, id);
    }
  }

  /** Appending a fresh entry and then deleting its identifier gives back the
      original sequence and releases exactly that entry's two files. */
  lemma AppendThenDelete(ws: seq<Wardrobe>, w: Wardrobe)
    requires forall v :: v in ws ==> v.identifier != w.identifier
    ensures KeepOthers(ws + [w], WardrobeId, w.identifier) == ws
    ensures RemovedFileKeys(ws + [w], w.identifier) == [w.mainFile, w.labelFile]
  {
    var s := ws + [w];
    assert s[..|s| - 1] == ws;
    KeepOthersUnmatched(ws, WardrobeId, w.identifier);
    RemovedFileKeysUnmatched(ws, w.identifier);
  }

  /** Setting the recognized text keeps every entry's identifier and file keys. */
  lemma WithLabelTextKeepsKeys(ws: seq<Wardrobe>, id: string, text: string, w: Wardrobe)
    requires w in WithLabelText(ws, id, text)
    ensures exists v :: v in ws && v.identifier == w.identifier && v.mainFile == w.mainFile
                      && v.labelFile == w.labelFile && v.description == w.description
  {
    var r := WithLabelText(ws, id, text);
    var k :| 0 <= k < |r| && r[k] == w;
    assert ws[k] in ws;
  }
}
