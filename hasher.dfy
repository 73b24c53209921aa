/** The `md5` helper of smartdedupe.py: open a file, feed it to the hasher in
    chunks of 10240 bytes until a read returns nothing, and give the hex
    digest; an `IOError` on open yields no digest at all.  The MD5 algorithm
    itself is a foreign library call and stays abstract: `digest` maps the
    whole byte string fed to the hasher to its hex digest. */
module Hasher {
  import opened Options

  newtype byte = b: int | 0 <= b < 256

  /** A hex digest as stored in the `md5_hash` column. */
  type Digest = string

  /** The size of each `f.read` call. */
  const ChunkSize: nat := 10240

  function Min(a: int, b: int): int { if a <= b then a else b }

  /** What `f.read(ChunkSize)` returns when the file position is `pos`. */
  function ReadChunk(content: seq<byte>, pos: nat): (data: seq<byte>)
    requires pos <= |content|
    ensures |data| <= ChunkSize && pos + |data| <= |content|
    ensures data == content[pos..pos + |data|]
    ensures |data| == 0 <==> pos == |content|
  {
    content[pos..Min(pos + ChunkSize, |content|)]
  }

  /** The digest the hasher yields for an opened file: the file's whole content,
      or nothing when the file could not be opened. */
  function DigestOf(file: Option<seq<byte>>, digest: seq<byte> -> Digest): Option<Digest>
  {
    match file
    case None => None
    case Some(content) => Some(digest(content))
  }

  /** `md5(file_path)`: `file` is what opening the path gives (`None` when
      `open` raises `IOError`).  The loop feeds every byte exactly once, in
      order, so the digest is that of the whole content. */
  method Md5(file: Option<seq<byte>>, digest: seq<byte> -> Digest) returns (r: Option<Digest>)
    ensures file.None? ==> r.None?
    ensures file.Some? ==> r == Some(digest(file.value))
  {
    if file.None? {
      return None;
    }
    var content := file.value;
    var fed: seq<byte> := [];
    var pos: nat := 0;
    while true
      invariant pos <= |content|
      invariant fed == content[..pos]
      decreases |content| - pos
    {
      var data := ReadChunk(content, pos);
      if |data| == 0 {
        break;
      }
      fed := fed + data;
      pos := pos + |data|;
    }
    assert fed == content;
    r := Some(digest(fed));
  }
}
