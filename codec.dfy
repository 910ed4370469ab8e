/** The tag codec: a comment slot either holds a blob that encodes a tag
    dictionary, or text a person typed, which decodes to no tags. */
module Codec {
  import opened Common

  /** A Python value stored under a tag; `Null` is Python's `None`, `Other`
      any value the model does not look inside. */
  datatype Value = Null | Bool(b: bool) | Int(i: int) | Str(s: string) | Other(id: nat)

  type TagMap = map<string, Value>

  /** The content of one comment slot. */
  datatype Comment = Plain(text: string) | Encoded(tags: TagMap)

  /** `internal.comment.decode`: a missing comment or one that is not a
      blob gives the empty dictionary, never an error. */
  function Decode(c: Option<Comment>): (m: TagMap)
    ensures c.None? || c.value.Plain? ==> m == map[]
  {
    match c
    case Some(Encoded(tags)) => tags
    case _ => map[]
  }

  /** `internal.comment.encode`; what it promises is that decoding gives the dictionary back. */
  function Encode(m: TagMap): (c: Comment)
    ensures Decode(Some(c)) == m
  {
    Encoded(m)
  }
}
