/**
 * Two small serialisers of the web server: the content type chosen for a
 * static file from its name (`getMimeType`), and the ICO container that wraps
 * the favicon's PNG image (`generateFaviconICO`).
 */
module Assets {
  import opened Wrappers
  import opened Bytes
  import opened Text
  import opened Paths
  import opened Seqs

  const OctetStream: string := "application/octet-stream"

  /** The cases of the static switch, in its order, and the type each returns. */
  const StaticExtensions: seq<string> :=
    ["html", "htm", "css", "js", "json", "png", "jpg", "jpeg", "gif", "svg", "ico", "txt", "pdf"]
  const StaticTypes: seq<string> :=
    ["text/html", "text/html", "text/css", "application/javascript", "application/json", "image/png",
     "image/jpeg", "image/jpeg", "image/gif", "image/svg+xml", "image/x-icon", "text/plain", "application/pdf"]

  /** The switch over an already lower-cased extension. */
  function MimeTypeFor(ext: string): (r: string)
    ensures r != ""
  {
    assert forall k :: 0 <= k < |StaticTypes| ==> |StaticTypes[k]| > 0;
    Lookup(StaticExtensions, StaticTypes, ext, OctetStream)
  }

  /** `getMimeType(for:)`: the lower-cased path extension picks the type. */
  function StaticMimeType(fileName: string): string {
    MimeTypeFor(Lower(PathExtension(fileName)))
  }

  /** Exactly the thirteen listed extensions get a specific type; every other one is a byte stream. */
  lemma MimeTypeKnown(ext: string)
    ensures MimeTypeFor(ext) != OctetStream <==> ext in StaticExtensions
  {
    assert forall k :: 0 <= k < |StaticTypes| ==> |StaticTypes[k]| != |OctetStream|;
  }

  /** A file `base.ext` is served with the type of its lower-cased extension, whatever its case. */
  lemma StaticMimeTypeOf(base: string, ext: string)
    requires |base| > 0 && base[|base| - 1] != '/'
    requires '.' !in ext && '/' !in ext
    ensures StaticMimeType(base + "." + ext) == MimeTypeFor(Lower(ext))
    ensures StaticMimeType(base + "." + ext) == StaticMimeType(base + "." + Lower(ext))
  {
    PathExtensionOf(base, ext);
    LowerKeepsAbsent(ext, '.');
    LowerKeepsAbsent(ext, '/');
    PathExtensionOf(base, Lower(ext));
    LowerIdempotent(ext);
  }

  lemma LowerKeepsAbsent(s: string, c: char)
    requires c !in s && c < 'A'
    ensures c !in Lower(s)
  {
    forall i | 0 <= i < |s|
      ensures Lower(s)[i] != c
    {
      assert Lower(s)[i] == LowerChar(s[i]);
    }
  }

  /** A name without an extension is served as a byte stream. */
  lemma NoExtensionIsStream(fileName: string)
    requires PathExtension(fileName) == []
    ensures StaticMimeType(fileName) == OctetStream
  {
    assert Lower([]) == [];
    assert forall k :: 0 <= k < |StaticExtensions| ==> |StaticExtensions[k]| > 0;
    assert [] !in StaticExtensions;
  }

  // ------------------------------------------------------------------ favicon

  const IcoHeader: seq<byte> := [0, 0, 1, 0, 1, 0]
  const IcoEntry: seq<byte> := [32, 32, 0, 0, 1, 0, 32, 0]
  const IcoDataOffset: nat := 22

  /**
   * `generateFaviconICO`: the 6-byte header (one icon), a 16-byte directory
   * entry (32x32, 32 bits per pixel, the PNG's size and offset as
   * little-endian `UInt32`s), then the PNG. Beyond `UInt32` the size
   * conversion traps.
   */
  function FaviconIco(png: seq<byte>): (ico: seq<byte>)
    requires |png| < Two32
    ensures |ico| == IcoDataOffset + |png| && ico[IcoDataOffset..] == png
    ensures ico[..6] == IcoHeader && ico[6..14] == IcoEntry
    ensures ReadLE32(ico[14..18]) == |png| && ReadLE32(ico[18..22]) == IcoDataOffset
  {
    var size := LE32(|png|);
    var offset := LE32(IcoDataOffset);
    ReadLE32Inverse(|png|);
    ReadLE32Inverse(IcoDataOffset);
    var ico := IcoHeader + IcoEntry + size + offset + png;
    assert ico[14..18] == size && ico[18..22] == offset;
    ico
  }

  /** The directory entry's offset points at the image: the bytes from there on are the PNG. */
  lemma FaviconImageAtOffset(png: seq<byte>)
    requires |png| < Two32
    ensures var ico := FaviconIco(png);
            ico[ReadLE32(ico[18..22])..] == png && |ico| - ReadLE32(ico[18..22]) == ReadLE32(ico[14..18])
  {
  }
}
