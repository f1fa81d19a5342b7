/**
 * The byte stream that identifies a set of client artifacts
 * (scripts/client-build-environment.ts:256-272).
 *
 * Every file contributes its path and its content, each preceded by its length
 * in decimal and a colon.  The bytes fed to the hash determine the list of
 * files: a decoder recovers the list, so two different sets of artifacts never
 * feed the hash the same bytes.  The hash itself stays an arbitrary function.
 */
module DigestFraming {
  import opened Options

  newtype Byte = b: int | 0 <= b < 256

  const COLON: Byte := 58
  const ZERO: Byte := 48

  type Bytes = seq<Byte>

  datatype File = File(path: Bytes, content: Bytes)

  // ----- decimal lengths -----

  predicate IsDigit(b: Byte) {
    ZERO <= b < COLON
  }

  predicate Digits(ds: Bytes) {
    forall i :: 0 <= i < |ds| ==> IsDigit(ds[i])
  }

  function Digit(d: nat): (b: Byte)
    requires d < 10
    ensures IsDigit(b) && (b - ZERO) as nat == d
  {
    ZERO + d as Byte
  }

  // The decimal numeral of n, without leading zeros.
  function Decimal(n: nat): (ds: Bytes)
    ensures ds != [] && Digits(ds)
  {
    if n < 10 then [Digit(n)] else Decimal(n / 10) + [Digit(n % 10)]
  }

  function Value(ds: Bytes): nat
    requires Digits(ds)
  {
    if ds == [] then 0
    else
      var last := ds[|ds| - 1];
      assert IsDigit(last);
      10 * Value(ds[..|ds| - 1]) + (last - ZERO) as nat
  }

  lemma {:induction false} ValueOfDecimal(n: nat)
    ensures Value(Decimal(n)) == n
  {
    if n < 10 {
      assert Decimal(n)[..0] == [];
    } else {
      ValueOfDecimal(n / 10);
      var ds := Decimal(n);
      assert ds[..|ds| - 1] == Decimal(n / 10);
    }
  }

  // ----- the frame -----

  function Field(data: Bytes): Bytes {
    Decimal(|data|) + [COLON] + data
  }

  function Frame(files: seq<File>): Bytes {
    if files == [] then []
    else Field(files[0].path) + Field(files[0].content) + Frame(files[1..])
  }

  lemma {:induction false} FrameAppend(files: seq<File>, f: File)
    ensures Frame(files + [f]) == Frame(files) + Field(f.path) + Field(f.content)
  {
    var g := files + [f];
    if files == [] {
      assert g[1..] == [];
    } else {
      assert g[1..] == files[1..] + [f];
      FrameAppend(files[1..], f);
    }
  }

  // The length is spelled in ASCII digits without leading zeros, and ends at a colon.
  lemma FieldSpelled(data: Bytes, tens: nat, ones: nat)
    requires |data| == 10 * tens + ones && ones < 10
    ensures Field(data) == (if tens == 0 then [] else Decimal(tens)) + [('0' as int + ones) as Byte]
                           + [':' as int as Byte] + data
    ensures forall n: nat :: n < 10 ==> Decimal(n) == [('0' as int + n) as Byte]
    ensures forall n: nat :: n >= 10 ==> Decimal(n) == Decimal(n / 10) + [('0' as int + n % 10) as Byte]
  {
  }

  // ----- the decoder -----

  // How many leading bytes are digits.
  function DigitCount(s: Bytes): (k: nat)
    ensures k <= |s|
    ensures Digits(s[..k])
    ensures k < |s| ==> !IsDigit(s[k])
  {
    if s == [] || !IsDigit(s[0]) then 0
    else
      var k := DigitCount(s[1..]);
      assert s[..1 + k] == [s[0]] + s[1..][..k];
      1 + k
  }

  // Reads one field and returns its data and what follows it.
  function ReadField(s: Bytes): (r: Option<(Bytes, Bytes)>)
    ensures r.Some? ==> |r.value.1| < |s|
  {
    var k := DigitCount(s);
    if k == |s| || s[k] != COLON then None
    else
      var n := Value(s[..k]);
      if Decimal(n) != s[..k] || |s| < k + 1 + n then None
      else Some((s[k + 1..k + 1 + n], s[k + 1 + n..]))
  }

  function Decode(s: Bytes): Option<seq<File>>
    decreases |s|
  {
    if s == [] then Some([])
    else
      match ReadField(s)
      case None => None
      case Some((path, rest)) =>
        match ReadField(rest)
        case None => None
        case Some((content, more)) =>
          match Decode(more)
          case None => None
          case Some(files) => Some([File(path, content)] + files)
  }

  lemma {:induction false} DigitsEndAtColon(ds: Bytes, tail: Bytes)
    requires Digits(ds)
    ensures DigitCount(ds + [COLON] + tail) == |ds|
  {
    var s := ds + [COLON] + tail;
    if ds == [] {
      assert s[0] == COLON;
    } else {
      assert IsDigit(ds[0]) && s[0] == ds[0];
      assert s[1..] == ds[1..] + [COLON] + tail;
      DigitsEndAtColon(ds[1..], tail);
    }
  }

  // A field is read back whole, whatever follows it.
  lemma ReadWrittenField(data: Bytes, tail: Bytes)
    ensures ReadField(Field(data) + tail) == Some((data, tail))
  {
    var ds := Decimal(|data|);
    var s := Field(data) + tail;
    assert s == ds + [COLON] + (data + tail);
    DigitsEndAtColon(ds, data + tail);
    ValueOfDecimal(|data|);
    assert s[..|ds|] == ds && s[|ds|] == COLON;
    assert s[|ds| + 1..|ds| + 1 + |data|] == data && s[|ds| + 1 + |data|..] == tail;
  }

  // Only a written field is ever read.
  lemma WrittenReadField(s: Bytes)
    requires ReadField(s).Some?
    ensures s == Field(ReadField(s).value.0) + ReadField(s).value.1
  {
    var k := DigitCount(s);
    var n := Value(s[..k]);
    assert s == s[..k] + [s[k]] + s[k + 1..k + 1 + n] + s[k + 1 + n..];
  }

  lemma {:induction false} DecodeFrame(files: seq<File>)
    ensures Decode(Frame(files)) == Some(files)
  {
    if files != [] {
      var f := files[0];
      var more := Frame(files[1..]);
      assert Frame(files) == Field(f.path) + (Field(f.content) + more);
      ReadWrittenField(f.path, Field(f.content) + more);
      ReadWrittenField(f.content, more);
      DecodeFrame(files[1..]);
      assert files == [f] + files[1..];
    }
  }

  lemma {:induction false} FrameDecode(s: Bytes)
    requires Decode(s).Some?
    ensures Frame(Decode(s).value) == s
    decreases |s|
  {
    if s != [] {
      WrittenReadField(s);
      var rest := ReadField(s).value.1;
      WrittenReadField(rest);
      var more := ReadField(rest).value.1;
      FrameDecode(more);
      var files := Decode(s).value;
      assert files[1..] == Decode(more).value;
    }
  }

  // The decoder accepts exactly the streams that some list of files feeds.
  lemma DecodesExactlyFrames(s: Bytes, files: seq<File>)
    ensures Decode(s) == Some(files) <==> s == Frame(files)
  {
    DecodeFrame(files);
    if Decode(s).Some? {
      FrameDecode(s);
    }
  }

  lemma FrameInjective(a: seq<File>, b: seq<File>)
    ensures Frame(a) == Frame(b) <==> a == b
  {
    DecodeFrame(a);
    DecodeFrame(b);
  }

  // ----- artifacts on disk -----

  // The artifacts under one root: the content at every path of the set.
  type Artifacts = map<string, Bytes>

  ghost predicate StrictOrder(less: (string, string) -> bool) {
    && (forall p :: !less(p, p))
    && (forall p, q, r :: less(p, q) && less(q, r) ==> less(p, r))
  }

  predicate Ascending(less: (string, string) -> bool, paths: seq<string>) {
    forall i, j :: 0 <= i < j < |paths| ==> less(paths[i], paths[j])
  }

  // What the loop visits: the paths of the set, in the sort's order.
  ghost predicate Listing(less: (string, string) -> bool, artifacts: Artifacts, paths: seq<string>) {
    && Ascending(less, paths)
    && (forall p :: p in paths <==> p in artifacts)
  }

  function Files(utf8: string -> Bytes, artifacts: Artifacts, paths: seq<string>): (files: seq<File>)
    requires forall p :: p in paths ==> p in artifacts
    ensures |files| == |paths|
    ensures forall i :: 0 <= i < |paths| ==> files[i] == File(utf8(paths[i]), artifacts[paths[i]])
  {
    if paths == [] then []
    else [File(utf8(paths[0]), artifacts[paths[0]])] + Files(utf8, artifacts, paths[1..])
  }

  ghost predicate DistinctBytes(utf8: string -> Bytes, a: Artifacts, b: Artifacts) {
    forall p, q :: p in a && q in b && utf8(p) == utf8(q) ==> p == q
  }

  // An ascending listing of a set is unique.
  lemma {:induction false} ListingUnique(less: (string, string) -> bool, p: seq<string>, q: seq<string>)
    requires StrictOrder(less)
    requires Ascending(less, p) && Ascending(less, q)
    requires forall x :: x in p <==> x in q
    ensures p == q
  {
    assert |p| > 0 ==> p[0] in q;
    assert |q| > 0 ==> q[0] in p;
    if p != [] {
      assert p[0] == q[0];
      assert forall x :: x in p[1..] ==> x in p && x != p[0];
      assert forall x :: x in q[1..] ==> x in q && x != q[0];
      assert forall x :: x in p && x != p[0] ==> x in p[1..];
      assert forall x :: x in q && x != q[0] ==> x in q[1..];
      ListingUnique(less, p[1..], q[1..]);
    }
  }

  // The bytes the loop feeds to the hash.
  function Stream(utf8: string -> Bytes, artifacts: Artifacts, paths: seq<string>): Bytes
    requires forall p :: p in paths ==> p in artifacts
  {
    Frame(Files(utf8, artifacts, paths))
  }

  lemma EqualFiles(utf8: string -> Bytes, a: Artifacts, p: seq<string>, b: Artifacts, q: seq<string>)
    requires DistinctBytes(utf8, a, b)
    requires (forall x :: x in p ==> x in a) && (forall x :: x in q ==> x in b)
    requires Files(utf8, a, p) == Files(utf8, b, q)
    ensures p == q && forall x :: x in p ==> a[x] == b[x]
  {
    var fa, fb := Files(utf8, a, p), Files(utf8, b, q);
    forall i | 0 <= i < |p|
      ensures p[i] == q[i] && a[p[i]] == b[p[i]]
    {
      assert fa[i] == fb[i];
    }
  }

  // Two sets of artifacts feed the hash the same bytes exactly when they are the same set.
  lemma StreamIdentifiesArtifacts(
      less: (string, string) -> bool, utf8: string -> Bytes,
      a: Artifacts, p: seq<string>, b: Artifacts, q: seq<string>)
    requires StrictOrder(less) && DistinctBytes(utf8, a, b)
    requires Listing(less, a, p) && Listing(less, b, q)
    ensures Stream(utf8, a, p) == Stream(utf8, b, q) <==> a == b
    ensures a == b ==> p == q
  {
    FrameInjective(Files(utf8, a, p), Files(utf8, b, q));
    if Files(utf8, a, p) == Files(utf8, b, q) {
      EqualFiles(utf8, a, p, b, q);
      assert a.Keys == b.Keys;
    }
    if a == b {
      ListingUnique(less, p, q);
    }
  }

  // ----- the digest -----

  datatype Digest = Digest(fileCount: nat, sha256: string)

  // The hash object: it only ever sees the concatenation of its updates.
  class Hash {
    var fed: Bytes

    constructor ()
      ensures fed == []
    {
      fed := [];
    }

    method Update(data: Bytes)
      modifies this
      ensures fed == old(fed) + data
    {
      fed := fed + data;
    }
  }

  function DigestOf(sha256: Bytes -> string, utf8: string -> Bytes, artifacts: Artifacts, paths: seq<string>): Digest
    requires forall p :: p in paths ==> p in artifacts
  {
    Digest(|paths|, sha256(Stream(utf8, artifacts, paths)))
  }

  lemma FedFile(fed: Bytes, path: Bytes, content: Bytes)
    ensures fed + (Decimal(|path|) + [COLON]) + path + (Decimal(|content|) + [COLON]) + content
            == fed + Field(path) + Field(content)
  {
    assert fed + (Decimal(|path|) + [COLON]) + path == fed + Field(path);
    var g := fed + Field(path);
    assert g + (Decimal(|content|) + [COLON]) + content == g + Field(content);
  }

  // The digest of every artifact, or the error for a build without artifacts.
  method ClientArtifactDigest(
      paths: seq<string>, artifacts: Artifacts, utf8: string -> Bytes, sha256: Bytes -> string)
    returns (r: Result<Digest, string>)
    requires forall p :: p in paths ==> p in artifacts
    ensures r.Err? <==> paths == []
    ensures r.Ok? ==> r.value == DigestOf(sha256, utf8, artifacts, paths)
  {
    if |paths| == 0 {
      return Err("complete client build produced no Vite or dynamic client artifacts");
    }
    var hash := new Hash();
    ghost var files := Files(utf8, artifacts, paths);
    for i := 0 to |paths|
      invariant hash.fed == Frame(files[..i])
    {
      var path := utf8(paths[i]);
      var content := artifacts[paths[i]];
      FrameAppend(files[..i], files[i]);
      assert files[..i + 1] == files[..i] + [files[i]];
      FedFile(hash.fed, path, content);
      hash.Update(Decimal(|path|) + [COLON]);
      hash.Update(path);
      hash.Update(Decimal(|content|) + [COLON]);
      hash.Update(content);
    }
    assert files[..|paths|] == files;
    return Ok(Digest(|paths|, sha256(hash.fed)));
  }

  // The comparison that guards a recorded build accepts exactly the recorded
  // artifacts, as far as the hash tells the two streams apart.
  lemma RecordMatchesIffUnchanged(
      less: (string, string) -> bool, utf8: string -> Bytes, sha256: Bytes -> string,
      recorded: Artifacts, p: seq<string>, current: Artifacts, q: seq<string>)
    requires StrictOrder(less) && DistinctBytes(utf8, recorded, current)
    requires Listing(less, recorded, p) && Listing(less, current, q)
    requires sha256(Stream(utf8, recorded, p)) == sha256(Stream(utf8, current, q))
             ==> Stream(utf8, recorded, p) == Stream(utf8, current, q)
    ensures DigestOf(sha256, utf8, recorded, p) == DigestOf(sha256, utf8, current, q) <==> recorded == current
  {
    StreamIdentifiesArtifacts(less, utf8, recorded, p, current, q);
  }
}
