/** Object identities and kinds shared by the graph algorithms and the codecs. */
module Objects {

  import opened Bytes

  datatype ObjectFormat = Sha1 | Sha256 {

    function DigestLength(): (n: nat)
    {
      match this
      case Sha1 => 20
      case Sha256 => 32
    }
  }

  /** An identity carries its format; well-formed ones have that format's digest width. */
  datatype ObjectId = ObjectId(format: ObjectFormat, digest: Bytes) {

    ghost predicate Valid()
    {
      |digest| == format.DigestLength()
    }

    predicate IsNull()
    {
      forall i :: 0 <= i < |digest| ==> digest[i] == 0
    }
  }

  datatype ObjectKind = Commit | Tree | Blob | Tag
}
