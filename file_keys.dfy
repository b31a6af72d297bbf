/** File keys of a wardrobe entry. The source names the two images of entry
    `id` of `user` by the hex MD5 digest of user + "_image_" + id and of
    user + "_label_" + id. The digest is a parameter here: the model proves
    what follows from the shape of the hashed strings, and what holds for any
    injective digest, not properties of MD5. */
module FileKeys {
  import opened Definitions

  const ImageRole: string := "_image_"
  const LabelRole: string := "_label_"

  function ImageFileName(digest: string -> string, user: string, id: string): (r: string) {
    digest(user + ImageRole + id)
  }

  function LabelFileName(digest: string -> string, user: string, id: string): (r: string) {
    digest(user + LabelRole + id)
  }

  ghost predicate Injective(digest: string -> string) {
    forall a, b :: a != b ==> digest(a) != digest(b)
  }

  /** Every stored entry names the two files derived from its owner and its
      identifier: the invariant that ties the closet repository to the image
      repository. */
  ghost predicate KeysDerived(digest: string -> string, closets: map<string, WardrobeCloset>) {
    forall u, w :: u in closets && w in closets[u].wardrobes ==>
      w.mainFile == ImageFileName(digest, u, w.identifier) &&
      w.labelFile == LabelFileName(digest, u, w.identifier)
  }

  /** The hashed strings determine owner, role and identifier, provided the
      identifiers hold no '_' (a generated UUID holds none): the identifier is
      what follows the last '_', the role the seven characters before it. */
  lemma PreimageInjective(u1: string, r1: string, id1: string, u2: string, r2: string, id2: string)
    requires r1 in {ImageRole, LabelRole} && r2 in {ImageRole, LabelRole}
    requires '_' !in id1 && '_' !in id2
    requires u1 + r1 + id1 == u2 + r2 + id2
    ensures u1 == u2 && r1 == r2 && id1 == id2
  {
    var s := u1 + r1 + id1;
    if |id1| < |id2| {
      UnderscoreBeforeId(u1, r1, id1);
      assert false;
    } else if |id2| < |id1| {
      UnderscoreBeforeId(u2, r2, id2);
      assert false;
    }
    assert id1 == s[|s| - |id1|..] == id2;
    var head := s[..|s| - |id1|];
    assert head == u1 + r1 && head == u2 + r2;
    assert r1 == head[|head| - 7..] == r2;
    assert u1 == head[..|head| - 7] == u2;
  }

  /** The character just before the identifier is the last '_' of the role. */
  lemma UnderscoreBeforeId(u: string, r: string, id: string)
    requires r in {ImageRole, LabelRole}
    ensures (u + r + id)[|u + r + id| - |id| - 1] == '_'
  {
    var s := u + r + id;
    assert s[|u| + 6] == r[6];
  }

  /** With an injective digest and generated identifiers, two entries share a
      file key only if they are the same entry of the same user in the same
      role; in particular the image and label keys of one entry differ. */
  lemma KeysDistinct(digest: string -> string, u1: string, id1: string, u2: string, id2: string)
    requires Injective(digest)
    requires '_' !in id1 && '_' !in id2
    ensures ImageFileName(digest, u1, id1) != LabelFileName(digest, u2, id2)
    ensures ImageFileName(digest, u1, id1) == ImageFileName(digest, u2, id2) ==> u1 == u2 && id1 == id2
    ensures LabelFileName(digest, u1, id1) == LabelFileName(digest, u2, id2) ==> u1 == u2 && id1 == id2
  {
    if u1 + ImageRole + id1 == u2 + LabelRole + id2 {
      PreimageInjective(u1, ImageRole, id1, u2, LabelRole, id2);
    }
    if u1 + ImageRole + id1 == u2 + ImageRole + id2 {
      PreimageInjective(u1, ImageRole, id1, u2, ImageRole, id2);
    }
    if u1 + LabelRole + id1 == u2 + LabelRole + id2 {
      PreimageInjective(u1, LabelRole, id1, u2, LabelRole, id2);
    }
  }

  /** Without the restriction on identifiers the derivation is ambiguous: a
      user named "a_image_b" with entry "c" and a user "a" with entry
      "b_image_c" hash the same string, whatever the digest. */
  lemma PreimageAmbiguous(digest: string -> string)
    ensures ImageFileName(digest, "a_image_b", "c") == ImageFileName(digest, "a", "b_image_c")
  {
    assert "a_image_b" + ImageRole + "c" == "a" + ImageRole + "b_image_c";
  }
}
