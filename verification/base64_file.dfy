/**
  `base64ToFile`: the payload of a data URL is the piece after its first comma;
  the decoded binary string is cut into 1024-character slices, each turned into
  a byte array of its character codes. `atob` is a parameter; `Blob` and
  `File` are represented by the list of byte arrays they are built from.
 */
module Base64File {
  import opened Wrappers
  import opened Text

  newtype Byte = x: int | 0 <= x < 256

  /** The slice length of the conversion loop. */
  const ChunkSize: nat := 1024

  const FormatError := "Invalid base64 string format"

  /** `Uint8Array` stores a character code modulo 256. */
  function ToByte(c: char): (b: Byte)
    ensures (c as int) < 256 ==> b as int == c as int
  {
    ((c as int) % 256) as Byte
  }

  /** The bytes of a whole string, one per character. */
  function Bytes(s: string): (r: seq<Byte>)
    ensures |r| == |s| && forall i :: 0 <= i < |s| ==> r[i] == ToByte(s[i])
  {
    seq(|s|, i requires 0 <= i < |s| => ToByte(s[i]))
  }

  /** The bytes of all chunks, in order. */
  function Flatten(chunks: seq<seq<Byte>>): seq<Byte> {
    if chunks == [] then [] else Flatten(chunks[..|chunks| - 1]) + chunks[|chunks| - 1]
  }

  /** `parts[1]` of `base64.split(",")`, rejected when missing or empty. */
  function Payload(base64: string): (r: Option<string>)
    ensures r.Some? ==> r.value != "" && !Includes(r.value, ",")
  {
    var parts := Split(base64, ",");
    if |parts| < 2 || parts[1] == "" then None else Some(parts[1])
  }

  /** Without a comma there is no payload. */
  lemma PayloadNeedsComma(s: string)
    requires !Includes(s, ",")
    ensures Payload(s).None?
  {
    SplitFree(s, ",");
  }

  /** With a comma, the payload is the text after the first comma up to the next comma or
      the end; it is missing exactly when that text is empty. */
  lemma PayloadAfterFirstComma(head: string, tail: string)
    requires !Includes(head, ",")
    ensures var p := Split(tail, ",")[0];
      && tail[..|p|] == p
      && (|p| == |tail| || tail[|p|] == ',')
      && Payload(head + "," + tail) == (if p == "" then None else Some(p))
  {
    SplitAfterFree(head, ",", tail);
    var p := Split(tail, ",")[0];
    assert |p| < |tail| ==> OccursAt(tail, ",", |p|);
    assert |p| < |tail| ==> tail[|p|..|p| + 1][0] == tail[|p|];
  }

  /** The payload of a `data:<type>;base64,<data>` URL is `<data>`. */
  lemma DataUrlPayload(mimeType: string, data: string)
    requires !Includes(mimeType, ",") && !Includes(data, ",") && data != ""
    ensures Payload("data:" + mimeType + ";base64," + data) == Some(data)
  {
    var head := "data:" + mimeType + ";base64";
    assert "data:" + mimeType + ";base64," + data == head + "," + data;
    forall k: nat | k <= |head|
      ensures !OccursAt(head, ",", k)
    {
      if k + 1 <= |head| {
        var c := head[k..k + 1][0];
        assert c == head[k];
        if k < 5 {
          assert head[k] == "data:"[k];
        } else if k < 5 + |mimeType| {
          assert head[k] == mimeType[k - 5];
          assert mimeType[k - 5..k - 4] == head[k..k + 1];
          assert !OccursAt(mimeType, ",", k - 5);
        } else {
          assert head[k] == ";base64"[k - 5 - |mimeType|];
        }
      }
    }
    SplitAfterFree(head, ",", data);
    SplitFree(data, ",");
  }

  /** Bytes of a concatenation. */
  lemma BytesAppend(a: string, b: string)
    ensures Bytes(a + b) == Bytes(a) + Bytes(b)
  {
  }

  /** The inner loop: the character codes of one slice. */
  method SliceBytes(slice: string) returns (byteNumbers: seq<Byte>)
    ensures byteNumbers == Bytes(slice)
  {
    byteNumbers := [];
    var i := 0;
    while i < |slice|
      invariant 0 <= i <= |slice|
      invariant byteNumbers == Bytes(slice[..i])
    {
      BytesAppend(slice[..i], [slice[i]]);
      assert slice[..i + 1] == slice[..i] + [slice[i]];
      byteNumbers := byteNumbers + [ToByte(slice[i])];
      i := i + 1;
    }
    assert slice[..i] == slice;
  }

  /** `k` slices of `ChunkSize` cover `n` characters with the last one non-empty exactly
      when `k` is `n` divided by `ChunkSize`, rounded up. */
  lemma CeilDiv(k: nat, n: nat)
    requires (k == 0 && n == 0) || (k > 0 && (k - 1) * ChunkSize < n <= k * ChunkSize)
    ensures k == (n + ChunkSize - 1) / ChunkSize
  {
    var q := (n + ChunkSize - 1) / ChunkSize;
    assert q * ChunkSize <= n + ChunkSize - 1 < (q + 1) * ChunkSize;
  }

  /** The conversion loop: 1024-character slices, each as the bytes of its characters. */
  method ChunkBytes(decoded: string) returns (chunks: seq<seq<Byte>>)
    ensures |chunks| == (|decoded| + ChunkSize - 1) / ChunkSize
    ensures forall j :: 0 <= j < |chunks| ==> 0 < |chunks[j]| <= ChunkSize
    ensures forall j :: 0 <= j < |chunks| - 1 ==> |chunks[j]| == ChunkSize
    ensures Flatten(chunks) == Bytes(decoded)
  {
    chunks := [];
    var offset := 0;
    var covered := 0;
    while offset < |decoded|
      invariant offset == |chunks| * ChunkSize
      invariant covered == (if offset <= |decoded| then offset else |decoded|)
      invariant offset == 0 || offset - ChunkSize < |decoded|
      invariant Flatten(chunks) == Bytes(decoded[..covered])
      invariant forall j :: 0 <= j < |chunks| ==> 0 < |chunks[j]| <= ChunkSize
      invariant forall j :: 0 <= j < |chunks| - 1 ==> |chunks[j]| == ChunkSize
      // only a slice that reaches the end of the string can be short
      invariant |chunks| > 0 && offset <= |decoded| ==> |chunks[|chunks| - 1]| == ChunkSize
      decreases |decoded| - offset
    {
      var end := if offset + ChunkSize <= |decoded| then offset + ChunkSize else |decoded|;
      var slice := decoded[offset..end];
      var byteNumbers := SliceBytes(slice);
      assert decoded[..end] == decoded[..offset] + slice;
      BytesAppend(decoded[..offset], slice);
      chunks := chunks + [byteNumbers];
      offset := offset + ChunkSize;
      covered := end;
    }
    assert decoded[..covered] == decoded;
    CeilDiv(|chunks|, |decoded|);
  }

  /** What `base64ToFile` returns or throws. */
  datatype FileResult =
    | File(name: string, mimeType: Option<string>, parts: seq<seq<Byte>>)
    | Thrown(message: string)
    | DecodeFailed

  /** `base64ToFile(base64, filename, mimeType)`, with `atob` as `decode`. */
  method Base64ToFile(base64: string, filename: string, mimeType: Option<string>,
                      decode: string -> Option<string>) returns (r: FileResult)
    ensures Payload(base64).None? <==> r == Thrown(FormatError)
    ensures Payload(base64).Some? && decode(Payload(base64).value).None? ==> r == DecodeFailed
    ensures r.File? <==> Payload(base64).Some? && decode(Payload(base64).value).Some?
    ensures r.File? ==>
      && Payload(base64).Some?
      && decode(Payload(base64).value).Some?
      && r.name == filename && r.mimeType == mimeType
      && Flatten(r.parts) == Bytes(decode(Payload(base64).value).value)
      && forall j :: 0 <= j < |r.parts| ==> |r.parts[j]| <= ChunkSize
  {
    var payload := Payload(base64);
    if payload.None? {
      return Thrown(FormatError);
    }
    var decoded := decode(payload.value);
    if decoded.None? {
      return DecodeFailed;
    }
    var chunks := ChunkBytes(decoded.value);
    r := File(filename, mimeType, chunks);
  }

  /** Each output byte is the character code at the same position, since `atob` yields only
      codes below 256. */
  lemma BytesAreCharCodes(s: string, i: int)
    requires 0 <= i < |s| && (s[i] as int) < 256
    ensures Bytes(s)[i] as int == s[i] as int
  {
  }
}
