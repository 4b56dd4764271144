/** `dataURLToBlob`: split a data URL at its commas, read the MIME type out of
    the header with the pattern `/:(.*?);/` (default `image/jpeg`), decode the
    payload with `atob` and copy its character codes into a byte array. */
module DataUrl {
  import opened Wrappers

  /** `s.split(sep)`: the pieces of `s` between occurrences of `sep`, in order;
      there is always at least one (the empty string splits into `[""]`). */
  function Split(s: string, sep: char): (parts: seq<string>)
    ensures |parts| >= 1
    ensures forall p <- parts :: sep !in p
    decreases |s|
  {
    if s == [] then [""]
    else
      var rest := Split(s[1..], sep);
      if s[0] == sep then [""] + rest
      else [[s[0]] + rest[0]] + rest[1..]
  }

  /** `parts.join(sep)`. */
  function Join(parts: seq<string>, sep: char): string
    requires |parts| >= 1
  {
    if |parts| == 1 then parts[0] else parts[0] + [sep] + Join(parts[1..], sep)
  }

  /** Splitting loses nothing: joining the pieces back gives the string. */
  lemma {:induction false} JoinSplit(s: string, sep: char)
    ensures Join(Split(s, sep), sep) == s
  {
    if s != [] {
      var rest := Split(s[1..], sep);
      JoinSplit(s[1..], sep);
      if s[0] == sep {
        assert ([""] + rest)[1..] == rest;
      } else {
        var parts := [[s[0]] + rest[0]] + rest[1..];
        assert parts[1..] == rest[1..];
        if |rest| > 1 {
          assert Join(rest, sep) == rest[0] + [sep] + Join(rest[1..], sep);
        }
      }
    }
  }

  /** A prefix free of the separator is glued onto the first piece. */
  lemma {:induction false} SplitPrefix(a: string, r: string, sep: char)
    requires sep !in a
    ensures Split(a + r, sep) == [a + Split(r, sep)[0]] + Split(r, sep)[1..]
    decreases |a|
  {
    if a != [] {
      assert (a + r)[1..] == a[1..] + r;
      SplitPrefix(a[1..], r, sep);
      assert [a[0]] + (a[1..] + Split(r, sep)[0]) == a + Split(r, sep)[0];
    } else {
      var parts := Split(r, sep);
      assert a + r == r && a + parts[0] == parts[0];
      assert parts == [parts[0]] + parts[1..];
    }
  }

  /** A string with exactly one separator splits into the two sides. */
  lemma {:induction false} SplitOnce(a: string, b: string, sep: char)
    requires sep !in a && sep !in b
    ensures Split(a + [sep] + b, sep) == [a, b]
  {
    SplitPrefix(b, [], sep);
    assert b + [] == b;
    assert Split(b, sep) == [b];
    assert ([sep] + b)[1..] == b;
    assert Split([sep] + b, sep) == [""] + [b];
    SplitPrefix(a, [sep] + b, sep);
    assert a + [sep] + b == a + ([sep] + b);
    assert a + "" == a;
  }

  /** A character that `.` in a JavaScript pattern does not match. */
  predicate IsLineTerminator(c: char) {
    c == '\n' || c == '\r' || c == '\U{2028}' || c == '\U{2029}'
  }

  /** Where the lazy group `(.*?);` that starts at `k` ends: the first `;` at
      or after `k`, unless a line terminator comes before it. */
  function SemicolonFrom(s: string, k: nat): (r: Option<nat>)
    requires k <= |s|
    ensures r.Some? ==> k <= r.value < |s| && s[r.value] == ';'
    ensures r.Some? ==> forall j | k <= j < r.value :: s[j] != ';' && !IsLineTerminator(s[j])
    decreases |s| - k
  {
    if k == |s| then None
    else if s[k] == ';' then Some(k)
    else if IsLineTerminator(s[k]) then None
    else SemicolonFrom(s, k + 1)
  }

  /** A match of `/:(.*?);/` starts at position `p` of `s`: a colon that a
      `;` follows with no line break in between. */
  predicate MatchStartsAt(s: string, p: nat)
    requires p < |s|
  {
    s[p] == ':' && SemicolonFrom(s, p + 1).Some?
  }

  /** Where the leftmost match of `/:(.*?);/` at or after position `i`
      starts, or `None` when no colon there is followed by a `;`. */
  function MatchStart(s: string, i: nat): (r: Option<nat>)
    requires i <= |s|
    ensures r.Some? ==> i <= r.value < |s| && MatchStartsAt(s, r.value)
    ensures r.Some? ==> forall j | i <= j < r.value :: !MatchStartsAt(s, j)
    ensures r.None? <==> forall p | i <= p < |s| :: !MatchStartsAt(s, p)
    decreases |s| - i
  {
    if i == |s| then None
    else if MatchStartsAt(s, i) then Some(i)
    else MatchStart(s, i + 1)
  }

  /** The capture group of the leftmost match of `/:(.*?);/` in `s` that
      starts at or after position `i`, or `None` when there is no match. */
  function MatchFrom(s: string, i: nat): (r: Option<string>)
    requires i <= |s|
    ensures r.Some? ==> ';' !in r.value && forall c <- r.value :: !IsLineTerminator(c)
    ensures r.Some? ==> exists p | i <= p < |s| ::
      && MatchStartsAt(s, p) && IsGroupAt(s, p, r.value)
      && forall j | i <= j < p :: !MatchStartsAt(s, j)
    ensures r.None? <==> forall p | i <= p < |s| :: !MatchStartsAt(s, p)
  {
    match MatchStart(s, i)
    case None => None
    case Some(p) =>
      var q := SemicolonFrom(s, p + 1).value;
      assert IsGroupAt(s, p, s[p + 1..q]);
      Some(s[p + 1..q])
  }

  /** `g` sits right after position `p` of `s` and is followed by a `;`. */
  predicate IsGroupAt(s: string, p: nat, g: string) {
    p + |g| + 1 < |s| && s[p + 1..p + 1 + |g|] == g && s[p + 1 + |g|] == ';'
  }

  /** The type used when the header names none. */
  const DefaultMime: string := "image/jpeg"

  /** `(header.match(/:(.*?);/) || [])[1] || 'image/jpeg'`: the text between
      a `:` and the next `;` of the header, or the default when there is no
      such text or it is empty. */
  function MimeType(header: string): (m: string)
    ensures m != "" && ';' !in m
    ensures m == DefaultMime || exists p | 0 <= p < |header| :: header[p] == ':' && IsGroupAt(header, p, m)
  {
    match MatchFrom(header, 0)
    case Some(g) => if g != "" then g else DefaultMime
    case None => DefaultMime
  }

  /** A header without a colon gets the default type. */
  lemma NoColonMeansDefault(header: string)
    requires ':' !in header
    ensures MimeType(header) == DefaultMime
  {
    assert forall p | 0 <= p < |header| :: header[p] != ':';
  }

  /** The lazy group runs to the first `;` when nothing in between stops it. */
  lemma {:induction false} SemicolonAfter(s: string, k: nat, q: nat)
    requires k <= q < |s| && s[q] == ';'
    requires forall j | k <= j < q :: s[j] != ';' && !IsLineTerminator(s[j])
    ensures SemicolonFrom(s, k) == Some(q)
    decreases q - k
  {
    if k < q {
      SemicolonAfter(s, k + 1, q);
    }
  }

  /** The header of a data URL written as `prefix:type;rest`, with no colon in
      `prefix` and a non-empty `type` free of `;` and line breaks, yields
      exactly `type`. */
  lemma MimeTypeOfHeader(prefix: string, t: string, rest: string)
    requires ':' !in prefix
    requires t != "" && ';' !in t && forall c <- t :: !IsLineTerminator(c)
    ensures MimeType(prefix + ":" + t + ";" + rest) == t
  {
    var s := prefix + ":" + t + ";" + rest;
    var p := |prefix|;
    var q := p + 1 + |t|;
    assert s[p] == ':' && s[q] == ';';
    assert forall j | p + 1 <= j < q :: s[j] == t[j - p - 1];
    assert s[p + 1..q] == t;
    assert SemicolonFrom(s, p + 1) == Some(q) by {
      SemicolonAfter(s, p + 1, q);
    }
    assert MatchStartsAt(s, p);
    assert MatchStart(s, 0) == Some(p) by {
      assert forall j | 0 <= j < p :: s[j] == prefix[j];
    }
  }

  /** The values a Uint8Array can hold. */
  newtype uint8 = x: int | 0 <= x < 256

  /** What a Uint8Array keeps of a character code stored into it: the code
      modulo 256. */
  function ByteOf(c: char): uint8 {
    ((c as int) % 256) as uint8
  }

  /** The byte array whose i-th entry holds the code of the i-th character. */
  function Bytes(s: string): (b: seq<uint8>)
    ensures |b| == |s|
    ensures forall i | 0 <= i < |s| :: b[i] == ByteOf(s[i])
  {
    seq(|s|, i requires 0 <= i < |s| => ByteOf(s[i]))
  }

  /** The `while (n--)` loop of `dataURLToBlob`: a fresh zero-filled array
      of the string's length, filled from the last index down to the first. */
  method CopyBytes(bstr: string) returns (u8arr: array<uint8>)
    ensures fresh(u8arr)
    ensures u8arr[..] == Bytes(bstr)
  {
    var n := |bstr|;
    u8arr := new uint8[n];
    while n > 0
      invariant 0 <= n <= |bstr| == u8arr.Length
      invariant forall i | n <= i < |bstr| :: u8arr[i] == ByteOf(bstr[i])
    {
      n := n - 1;
      u8arr[n] := ByteOf(bstr[n]);
    }
  }

  /** A binary payload tagged with a MIME type. */
  datatype Blob = Blob(bytes: seq<uint8>, mime: string)

  /** The text handed to `atob`: the piece after the first comma. Without a
      comma that piece is `undefined`, which `atob` turns into the string
      "undefined" before decoding. */
  function Payload(dataurl: string): string {
    var parts := Split(dataurl, ',');
    if |parts| > 1 then parts[1] else "undefined"
  }

  /** The blob `dataURLToBlob` returns, or `None` when it throws; `atob`
      answers `None` where the browser's base64 decoder throws. */
  function BlobOf(dataurl: string, atob: string -> Option<string>): Option<Blob> {
    match atob(Payload(dataurl))
    case None => None
    case Some(bstr) => Some(Blob(Bytes(bstr), MimeType(Split(dataurl, ',')[0])))
  }

  /** `dataURLToBlob(dataurl)`. */
  method DataUrlToBlob(dataurl: string, atob: string -> Option<string>) returns (blob: Option<Blob>)
    ensures blob == BlobOf(dataurl, atob)
    ensures blob.Some? ==> blob.value.mime != "" && |blob.value.bytes| == |atob(Payload(dataurl)).value|
  {
    var arr := Split(dataurl, ',');
    var mime := MimeType(arr[0]);
    var decoded := atob(if |arr| > 1 then arr[1] else "undefined");
    if decoded.None? {
      return None;
    }
    var bstr := decoded.value;
    var u8arr := CopyBytes(bstr);
    blob := Some(Blob(u8arr[..], mime));
  }

  /** A well-formed base64 data URL `data:type;base64,payload` becomes a blob
      of type `type` holding the decoded payload. */
  lemma BlobOfWellFormed(t: string, payload: string, atob: string -> Option<string>)
    requires t != "" && ';' !in t && ',' !in t && forall c <- t :: !IsLineTerminator(c)
    requires ',' !in payload && atob(payload).Some?
    ensures BlobOf("data:" + t + ";base64," + payload, atob) == Some(Blob(Bytes(atob(payload).value), t))
  {
    var header := "data:" + t + ";base64";
    assert "data:" + t + ";base64," + payload == header + [','] + payload;
    assert ',' !in header by {
      assert forall j | 0 <= j < |header| :: header[j] in "data:;base64" || header[j] in t;
    }
    SplitOnce(header, payload, ',');
    assert header == "data" + ":" + t + ";" + "base64";
    MimeTypeOfHeader("data", t, "base64");
  }
}
