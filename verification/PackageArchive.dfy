/**
 The canonical package archive (scripts/release-download.ts): seven flat ustar members in a fixed order, in
 one canonical gzip member. Writing and strict reading are inverse to each other, in both directions.
 */
module PackageArchive {
  import opened Wrappers
  import opened Bytes
  import opened Octal
  import opened Sequences
  import Sorting

  // scripts/release-artifacts.ts: the members and their size limits.

  datatype PackageFile = Kizuki | KizukiMcp | Readme | License | Notices | BuildJson | Sha256Sums

  const PACKAGE_FILES: seq<PackageFile> := [Kizuki, KizukiMcp, Readme, License, Notices, BuildJson, Sha256Sums]

  function Name(f: PackageFile): (name: Bytes)
    ensures 0 < |name| <= 100
  {
    match f
    case Kizuki => Ascii("kizuki")
    case KizukiMcp => Ascii("kizuki-mcp")
    case Readme => Ascii("README.txt")
    case License => Ascii("LICENSE")
    case Notices => Ascii("THIRD-PARTY-NOTICES.txt")
    case BuildJson => Ascii("BUILD.json")
    case Sha256Sums => Ascii("SHA256SUMS")
  }

  function FileLimit(f: PackageFile): (limit: nat)
    ensures limit <= 268_435_456
  {
    match f
    case Kizuki => 268_435_456
    case KizukiMcp => 268_435_456
    case Notices => 4_194_304
    case BuildJson => 524_288
    case _ => 65_536
  }

  const BLOCK := 512

  type Contents = map<PackageFile, Bytes>

  ghost predicate Complete(files: Contents) {
    forall f :: f in PACKAGE_FILES <==> f in files
  }

  // The header block.

  const SPACE: Byte := 32
  const CHECKSUM_OFFSET := 148
  const BLANK_CHECKSUM: Bytes := [32, 32, 32, 32, 32, 32, 32, 32]

  ghost function Mode(f: PackageFile): nat {
    if f == Kizuki || f == KizukiMcp then 0x1ED else 0x1A4
  }

  /** Byte `i` of a header whose checksum field holds `checksum`. */
  ghost function HeaderByte(f: PackageFile, size: nat, checksum: Bytes, i: nat): Byte
    requires |checksum| == 8 && i < BLOCK
  {
    if i < |Name(f)| then Name(f)[i]
    else if 100 <= i < 108 then OctalField(8, Mode(f))[i - 100]
    else if 108 <= i < 116 then OctalField(8, 0)[i - 108]
    else if 116 <= i < 124 then OctalField(8, 0)[i - 116]
    else if 124 <= i < 136 then OctalField(12, size)[i - 124]
    else if 136 <= i < 148 then OctalField(12, 0)[i - 136]
    else if 148 <= i < 156 then checksum[i - 148]
    else if i == 156 then 48
    else if 257 <= i < 263 then USTAR[i - 257]
    else if 263 <= i < 265 then VERSION[i - 263]
    else 0
  }

  const USTAR: Bytes := [0x75, 0x73, 0x74, 0x61, 0x72, 0]
  const VERSION: Bytes := [0x30, 0x30]

  ghost function HeaderWith(f: PackageFile, size: nat, checksum: Bytes): (h: Bytes)
    requires |checksum| == 8
    ensures |h| == BLOCK
  {
    seq(BLOCK, i requires 0 <= i < BLOCK => HeaderByte(f, size, checksum, i))
  }

  /** Six octal digits, a NUL and a space; the write is cut at eight bytes. */
  ghost function ChecksumField(sum: nat): (r: Bytes)
    ensures |r| == 8
  {
    (PadStart(ToOctal(sum), 6) + [0, 32])[..8]
  }

  ghost function Header(f: PackageFile, size: nat): (h: Bytes)
    ensures |h| == BLOCK
  {
    HeaderWith(f, size, ChecksumField(Sum(HeaderWith(f, size, BLANK_CHECKSUM))))
  }

  lemma SizeFieldReadsBack(f: PackageFile, size: nat, checksum: Bytes)
    requires size <= FileLimit(f) && |checksum| == 8
    ensures var h := HeaderWith(f, size, checksum);
      h[124..136] == OctalField(12, size) && IsField(12, h[124..136]) && ParseOctal(h[124..136][..11]) == size
  {
    assert HeaderWith(f, size, checksum)[124..136] == OctalField(12, size);
    assert Pow8(11) == 0x2_0000_0000;
    FieldRoundTrip(12, size);
  }

  lemma HeaderSlices(f: PackageFile, size: nat, checksum: Bytes)
    requires |checksum| == 8
    ensures var h := HeaderWith(f, size, checksum);
      && h[..|Name(f)|] == Name(f)
      && h[148..154] == checksum[..6]
      && h[..148] + BLANK_CHECKSUM + h[156..] == HeaderWith(f, size, BLANK_CHECKSUM)
  {
    hide OctalField, Mode, Name;
    var h, blank := HeaderWith(f, size, checksum), HeaderWith(f, size, BLANK_CHECKSUM);
    forall i: nat | i < |Name(f)| ensures h[i] == Name(f)[i] {
      assert h[i] == HeaderByte(f, size, checksum, i);
    }
    forall i: nat | 148 <= i < 156 ensures h[i] == checksum[i - 148] && blank[i] == BLANK_CHECKSUM[i - 148] {
      assert h[i] == HeaderByte(f, size, checksum, i) && blank[i] == HeaderByte(f, size, BLANK_CHECKSUM, i);
    }
    forall i: nat | i < 148 || 156 <= i < BLOCK ensures h[i] == blank[i] {
      assert h[i] == HeaderByte(f, size, checksum, i) && blank[i] == HeaderByte(f, size, BLANK_CHECKSUM, i);
    }
    Spliced(h, blank, BLANK_CHECKSUM);
  }

  lemma Spliced(h: Bytes, blank: Bytes, middle: Bytes)
    requires |h| == |blank| == BLOCK && |middle| == 8
    requires forall i :: 148 <= i < 156 ==> blank[i] == middle[i - 148]
    requires forall i :: 0 <= i < 148 || 156 <= i < BLOCK ==> h[i] == blank[i]
    ensures h[..148] + middle + h[156..] == blank
  {
  }

  /** What any tar reader relies on: the size field reads back, and so does the byte sum over a blanked checksum field. */
  lemma HeaderReadsBack(f: PackageFile, size: nat)
    requires size <= FileLimit(f)
    ensures var h := Header(f, size);
      && h[..|Name(f)|] == Name(f)
      && IsField(12, h[124..136]) && ParseOctal(h[124..136][..11]) == size
      && AllOctal(h[148..154]) && ParseOctal(h[148..154]) == Sum(h[..148] + BLANK_CHECKSUM + h[156..])
  {
    hide HeaderWith, OctalField, IsField, ChecksumField, Name;
    var sum := Sum(HeaderWith(f, size, BLANK_CHECKSUM));
    SizeFieldReadsBack(f, size, ChecksumField(sum));
    HeaderSlices(f, size, ChecksumField(sum));
    ChecksumReadsBack(sum);
  }

  lemma ChecksumReadsBack(sum: nat)
    requires sum <= 255 * BLOCK
    ensures AllOctal(ChecksumField(sum)[..6]) && ParseOctal(ChecksumField(sum)[..6]) == sum
  {
    assert Pow8(6) == 0x4_0000;
    OctalWidth(sum, 6);
    ParsePadded(sum, 6);
    var padded := PadStart(ToOctal(sum), 6);
    assert (padded + [0, 32])[..8][..6] == padded;
  }

  // The tar stream.

  /** Math.ceil(size / BLOCK) * BLOCK */
  function RoundUp(size: nat): (n: nat)
    ensures size <= n < size + BLOCK && n % BLOCK == 0
  {
    var up := size + BLOCK - 1;
    assert up / BLOCK * BLOCK == up - up % BLOCK;
    up / BLOCK * BLOCK
  }

  function Padding(size: nat): (n: nat)
    ensures size + n == RoundUp(size)
  {
    (BLOCK - size % BLOCK) % BLOCK
  }

  ghost function Entry(f: PackageFile, data: Bytes): Bytes {
    Header(f, |data|) + (data + Zeros(Padding(|data|)))
  }

  ghost function Tar(names: seq<PackageFile>, files: Contents): Bytes
    requires forall f :: f in names ==> f in files
  {
    if names == [] then Zeros(2 * BLOCK) else Entry(names[0], files[names[0]]) + Tar(names[1..], files)
  }

  datatype Reason =
    | ArchiveSize | GzipHeader | UnpackedSize | GzipInvalid | GzipNoncanonical | EncoderHeader
    | TarTruncated | TarSize | SizeLimit | TarHeader | TarPadding | TarTrailing | MemberSize | Rejected

  /** One member off the front of a stream: its data and the rest. */
  ghost function ReadEntry(f: PackageFile, tar: Bytes): (r: Result<(Bytes, Bytes), Reason>)
    ensures r.Ok? ==> |r.value.1| < |tar|
  {
    if |tar| < BLOCK then Err(TarTruncated)
    else
      var field := SevenBit(tar[124..136]);
      if !IsField(12, field) then Err(TarSize)
      else
        var size := ParseOctal(field[..11]);
        if size > FileLimit(f) then Err(SizeLimit)
        else if tar[..BLOCK] != Header(f, size) then Err(TarHeader)
        else
          var end, next := BLOCK + size, BLOCK + RoundUp(size);
          if next > |tar| || !AllZero(tar[end..next]) then Err(TarPadding)
          else Ok((tar[BLOCK..end], tar[next..]))
  }

  ghost function ReadTar(names: seq<PackageFile>, tar: Bytes): Result<Contents, Reason> {
    if names == [] then
      if |tar| == 2 * BLOCK && AllZero(tar) then Ok(map[]) else Err(TarTrailing)
    else
      match ReadEntry(names[0], tar)
      case Err(reason) => Err(reason)
      case Ok((data, rest)) =>
        match ReadTar(names[1..], rest)
        case Err(reason) => Err(reason)
        case Ok(files) => Ok(files[names[0] := data])
  }

  ghost predicate WithinLimits(files: Contents) {
    forall f :: f in files ==> |files[f]| <= FileLimit(f)
  }

  ghost function Restrict(files: Contents, names: seq<PackageFile>): Contents {
    map f | f in files && f in names :: files[f]
  }

  lemma RestrictStep(files: Contents, names: seq<PackageFile>)
    requires names != [] && names[0] in files
    ensures Restrict(files, names) == Restrict(files, names[1..])[names[0] := files[names[0]]]
  {
    assert names == [names[0]] + names[1..];
  }

  /** What the writer puts down for a member, the reader takes up. */
  lemma {:induction false} ReadWrittenEntry(f: PackageFile, data: Bytes, rest: Bytes)
    requires |data| <= FileLimit(f)
    ensures ReadEntry(f, Entry(f, data) + rest) == Ok((data, rest))
  {
    hide Header, IsField, SevenBit, ParseOctal;
    var h, pad, tar := Header(f, |data|), Zeros(Padding(|data|)), Entry(f, data) + rest;
    WrittenHeader(f, |data|);
    FourPieces(h, data, pad, rest);
    assert tar[124..136] == tar[..BLOCK][124..136];
    ZeroBytes(pad);
  }

  lemma FourPieces(a: Bytes, b: Bytes, c: Bytes, d: Bytes)
    ensures var all := a + (b + c) + d;
      && all[..|a|] == a && all[|a|..|a| + |b|] == b && all[|a| + |b|..|a| + |b| + |c|] == c && all[|a| + |b| + |c|..] == d
  {
  }

  lemma WrittenHeader(f: PackageFile, size: nat)
    requires size <= FileLimit(f)
    ensures var field := Header(f, size)[124..136]; IsField(12, field) && SevenBit(field) == field && ParseOctal(field[..11]) == size
  {
    SizeFieldReadsBack(f, size, ChecksumField(Sum(HeaderWith(f, size, BLANK_CHECKSUM))));
    FieldIsSevenBit(12, Header(f, size)[124..136]);
  }

  /** What the reader takes up is byte for byte what the writer would put down. */
  lemma {:induction false} WriteReadEntry(f: PackageFile, tar: Bytes)
    requires ReadEntry(f, tar).Ok?
    ensures var (data, rest) := ReadEntry(f, tar).value; |data| <= FileLimit(f) && tar == Entry(f, data) + rest
  {
    hide Header;
    var (data, rest) := ReadEntry(f, tar).value;
    var end, next := BLOCK + |data|, BLOCK + RoundUp(|data|);
    ZeroBytes(tar[end..next]);
    assert tar == tar[..BLOCK] + (tar[BLOCK..end] + tar[end..next]) + tar[next..];
  }

  lemma {:induction false} ReadWrittenTar(names: seq<PackageFile>, files: Contents)
    requires Sorting.Distinct(names) && (forall f :: f in names ==> f in files) && WithinLimits(files)
    ensures ReadTar(names, Tar(names, files)) == Ok(Restrict(files, names))
  {
    if names != [] {
      hide Entry, ReadEntry;
      var f := names[0];
      ReadWrittenEntry(f, files[f], Tar(names[1..], files));
      ReadWrittenTar(names[1..], files);
      RestrictStep(files, names);
    }
  }

  lemma {:induction false} WriteReadTar(names: seq<PackageFile>, tar: Bytes)
    requires Sorting.Distinct(names) && ReadTar(names, tar).Ok?
    ensures var files := ReadTar(names, tar).value;
      && (forall f :: f in names <==> f in files)
      && WithinLimits(files) && tar == Tar(names, files)
  {
    if names == [] {
      ZeroBytes(tar);
    } else {
      var f := names[0];
      var (data, rest) := ReadEntry(f, tar).value;
      WriteReadEntry(f, tar);
      WriteReadTar(names[1..], rest);
      var inner, files := ReadTar(names[1..], rest).value, ReadTar(names, tar).value;
      TarSame(names[1..], inner, files);
    }
  }

  lemma {:induction false} TarSame(names: seq<PackageFile>, files: Contents, files': Contents)
    requires forall f :: f in names ==> f in files && f in files' && files[f] == files'[f]
    ensures Tar(names, files) == Tar(names, files')
  {
    if names != [] {
      TarSame(names[1..], files, files');
    }
  }

  // The gzip member. Compression itself is foreign; these are the facts about it that the code relies on.

  const GZIP_HEADER: Bytes := [0x1F, 0x8B, 8, 0, 0, 0, 0, 0, 2, 3]
  const OS_BYTE := 9

  /** gzipSync at level 9, and gunzipSync with a bound on its output. */
  datatype Gzip = Gzip(compress: Bytes -> Bytes, expand: (Bytes, nat) -> Option<Bytes>)

  /** The most that a gzip member of `n` bytes can take: zlib's compressBound and the gzip wrapper. */
  ghost function CompressBound(n: nat): nat {
    n + n / 0x1000 + n / 0x4000 + n / 0x200_0000 + 25
  }

  /** The fixed header up to the OS byte, the length trailer of section 2.3.1 of RFC 1952, the bound, and the round trip. */
  ghost predicate GzipContract(g: Gzip) {
    forall x :: Compressed(g, x)
  }

  ghost predicate Compressed(g: Gzip, x: Bytes) {
    var z := g.compress(x);
    && 18 <= |z| <= CompressBound(|x|)
    && z[..OS_BYTE] == GZIP_HEADER[..OS_BYTE]
    && Word32(z[|z| - 4..]) == |x| % 0x1_0000_0000
    && forall limit: nat :: Expands(g, WithOsByte(z), x, limit)
  }

  /** A member whose OS byte is set to the fixed one. */
  ghost function WithOsByte(z: Bytes): Bytes
    requires |z| >= 18
  {
    z[OS_BYTE := GZIP_HEADER[OS_BYTE]]
  }

  /** gunzipSync of `z` yields `x` unless it exceeds maxOutputLength. */
  ghost predicate Expands(g: Gzip, z: Bytes, x: Bytes, limit: nat) {
    g.expand(z, limit) == if |x| <= limit then Some(x) else None
  }

  ghost function LittleEndian32(n: nat): Bytes {
    [n % 0x100, n / 0x100 % 0x100, n / 0x1_0000 % 0x100, n / 0x100_0000 % 0x100]
  }

  /** With Unstore, a codec that stores what it is given: it shows that the contract can be met. */
  ghost function Store(x: Bytes): Bytes {
    GZIP_HEADER + x + Zeros(4) + LittleEndian32(|x| % 0x1_0000_0000)
  }

  ghost function Unstore(z: Bytes, limit: nat): Option<Bytes> {
    if |z| < 18 || |z| - 18 > limit then None else Some(z[10..|z| - 8])
  }

  lemma Word32OfLittleEndian(n: nat)
    requires n < 0x1_0000_0000
    ensures Word32(LittleEndian32(n)) == n
  {
    var m := n / 0x100;
    assert n == m * 0x100 + n % 0x100;
    assert n / 0x1_0000 == m / 0x100 && n / 0x100_0000 == m / 0x100 / 0x100;
  }

  lemma GzipContractCanBeMet()
    ensures GzipContract(Gzip(Store, Unstore))
  {
    var g := Gzip(Store, Unstore);
    forall x ensures Compressed(g, x) {
      var z := g.compress(x);
      Word32OfLittleEndian(|x| % 0x1_0000_0000);
      assert z[|z| - 4..] == LittleEndian32(|x| % 0x1_0000_0000);
      assert WithOsByte(z) == z;
      assert z[10..|z| - 8] == x;
    }
  }

  ghost function CanonicalGzip(g: Gzip, tar: Bytes): Result<Bytes, Reason> {
    var z := g.compress(tar);
    if |z| >= 18 && z[..OS_BYTE] == GZIP_HEADER[..OS_BYTE] then Ok(WithOsByte(z))
    else Err(EncoderHeader)
  }

  // Contents are inspected on both sides. BUILD.json, the checksum list and the notices are judged elsewhere.

  datatype Rules<!Build, !Source> = Rules(admit: Contents -> Option<Build>, sourceOf: Build -> Source)

  ghost function InspectContents<Build, Source>(rules: Rules<Build, Source>, files: Contents, source: Option<Source>): (r: Result<Build, Reason>)
  {
    if !Complete(files) || !WithinLimits(files) then Err(MemberSize)
    else
      match rules.admit(files)
      case None => Err(Rejected)
      case Some(build) =>
        if source.Some? && rules.sourceOf(build) != source.value then Err(Rejected) else Ok(build)
  }

  ghost function CreateArchive<Build, Source>(g: Gzip, rules: Rules<Build, Source>, files: Contents): Result<Bytes, Reason> {
    match InspectContents(rules, files, None)
    case Err(reason) => Err(reason)
    case Ok(_) => CanonicalGzip(g, Tar(PACKAGE_FILES, files))
  }

  const RAW_LIMIT := RawLimit(PACKAGE_FILES)
  const ARCHIVE_LIMIT := RAW_LIMIT + 1_048_576

  function RawLimit(names: seq<PackageFile>): nat {
    if names == [] then 2 * BLOCK else BLOCK + RoundUp(FileLimit(names[0])) + RawLimit(names[1..])
  }

  ghost function ParseArchive<Build, Source>(g: Gzip, rules: Rules<Build, Source>, archive: Bytes, source: Option<Source>):
      Result<(Contents, Build), Reason>
  {
    if |archive| < 18 || |archive| > ARCHIVE_LIMIT then Err(ArchiveSize)
    else if archive[..10] != GZIP_HEADER then Err(GzipHeader)
    else
      var announced := Word32(archive[|archive| - 4..]);
      if announced < 9 * BLOCK || announced > RAW_LIMIT || announced % BLOCK != 0 then Err(UnpackedSize)
      else
        match g.expand(archive, announced)
        case None => Err(GzipInvalid)
        case Some(tar) =>
          if |tar| != announced then Err(UnpackedSize)
          else if CanonicalGzip(g, tar) != Ok(archive) then Err(GzipNoncanonical)
          else
            match ReadTar(PACKAGE_FILES, tar)
            case Err(reason) => Err(reason)
            case Ok(files) =>
              match InspectContents(rules, files, source)
              case Err(reason) => Err(reason)
              case Ok(build) => Ok((files, build))
  }

  lemma RoundUpMonotone(a: nat, b: nat)
    requires a <= b
    ensures RoundUp(a) <= RoundUp(b)
  {
  }

  lemma TarGrows(names: seq<PackageFile>, files: Contents)
    requires names != [] && (forall f :: f in names ==> f in files)
    ensures |Tar(names, files)| == BLOCK + RoundUp(|files[names[0]]|) + |Tar(names[1..], files)|
  {
    assert |Entry(names[0], files[names[0]])| == BLOCK + RoundUp(|files[names[0]]|);
  }

  lemma WholeBlocks(a: nat, b: nat)
    requires a % BLOCK == 0 && b % BLOCK == 0
    ensures (BLOCK + a + b) % BLOCK == 0
  {
  }

  lemma {:induction false} TarLength(names: seq<PackageFile>, files: Contents)
    requires (forall f :: f in names ==> f in files) && WithinLimits(files)
    ensures 2 * BLOCK + |names| * BLOCK <= |Tar(names, files)| <= RawLimit(names)
  {
    if names != [] {
      TarLength(names[1..], files);
      TarGrows(names, files);
      hide Tar, RoundUp, FileLimit;
      RoundUpMonotone(|files[names[0]]|, FileLimit(names[0]));
    }
  }

  lemma NoEntries(files: Contents)
    ensures Tar([], files) == Zeros(2 * BLOCK) && (2 * BLOCK) % BLOCK == 0
  {
  }

  lemma {:induction false} TarWholeBlocks(names: seq<PackageFile>, files: Contents)
    requires forall f :: f in names ==> f in files
    ensures |Tar(names, files)| % BLOCK == 0
  {
    hide Tar;
    if names == [] {
      NoEntries(files);
    } else {
      TarWholeBlocks(names[1..], files);
      TarGrows(names, files);
      WholeBlocks(RoundUp(|files[names[0]]|), |Tar(names[1..], files)|);
    }
  }

  lemma RawLimitValue()
    ensures RAW_LIMIT == 541_790_720
  {
    hide RawLimit;
    RawLimitEnd();
    var s6 := [Sha256Sums] + [];
    var s5 := [BuildJson] + s6;
    var s4 := [Notices] + s5;
    var s3 := [License] + s4;
    var s2 := [Readme] + s3;
    var s1 := [KizukiMcp] + s2;
    RawLimitStep(Sha256Sums, []);
    RawLimitStep(BuildJson, s6);
    RawLimitStep(Notices, s5);
    RawLimitStep(License, s4);
    RawLimitStep(Readme, s3);
    RawLimitStep(KizukiMcp, s2);
    RawLimitStep(Kizuki, s1);
    assert [Kizuki] + s1 == PACKAGE_FILES;
  }

  lemma RawLimitEnd()
    ensures RawLimit([]) == 1024
  {
  }

  lemma RawLimitStep(f: PackageFile, rest: seq<PackageFile>)
    ensures RawLimit([f] + rest) == BLOCK + RoundUp(FileLimit(f)) + RawLimit(rest)
  {
    assert ([f] + rest)[1..] == rest;
  }

  /** Everything admitted fits the reader's bounds, 32-bit length trailer included. */
  lemma WrittenArchiveFits(g: Gzip, tar: Bytes)
    requires GzipContract(g) && 9 * BLOCK <= |tar| <= RAW_LIMIT
    ensures CanonicalGzip(g, tar).Ok?
    ensures var z := CanonicalGzip(g, tar).value;
      18 <= |z| <= ARCHIVE_LIMIT && z[..10] == GZIP_HEADER && Word32(z[|z| - 4..]) == |tar| && g.expand(z, |tar|) == Some(tar)
  {
    RawLimitValue();
    assert Compressed(g, tar);
    var c := g.compress(tar);
    var z := WithOsByte(c);
    assert Expands(g, z, tar, |tar|);
    assert z[|z| - 4..] == c[|c| - 4..];
    assert z[..10] == c[..OS_BYTE] + [GZIP_HEADER[OS_BYTE]] == GZIP_HEADER;
  }

  lemma InspectedFits<Build, Source>(rules: Rules<Build, Source>, files: Contents)
    requires InspectContents(rules, files, None).Ok?
    ensures WithinLimits(files) && (forall f :: f in PACKAGE_FILES ==> f in files) && Sorting.Distinct(PACKAGE_FILES)
    ensures Restrict(files, PACKAGE_FILES) == files
  {
  }

  /** Whatever the writer makes, the reader accepts, with the same members. */
  lemma ParseCreated<Build, Source>(g: Gzip, rules: Rules<Build, Source>, files: Contents, archive: Bytes, source: Option<Source>)
    requires GzipContract(g) && CreateArchive(g, rules, files) == Ok(archive)
    ensures ParseArchive(g, rules, archive, source) ==
      match InspectContents(rules, files, source) { case Err(reason) => Err(reason) case Ok(build) => Ok((files, build)) }
  {
    hide Tar, ReadTar, CanonicalGzip, RawLimit, Word32, WithinLimits;
    var tar := Tar(PACKAGE_FILES, files);
    InspectedFits(rules, files);
    TarLength(PACKAGE_FILES, files);
    TarWholeBlocks(PACKAGE_FILES, files);
    WrittenArchiveFits(g, tar);
    ReadWrittenTar(PACKAGE_FILES, files);
  }

  /** Whatever the reader accepts is, byte for byte, what the writer makes of the members it returns. */
  lemma CreateParsed<Build, Source>(g: Gzip, rules: Rules<Build, Source>, archive: Bytes, source: Option<Source>)
    requires ParseArchive(g, rules, archive, source).Ok?
    ensures var (files, build) := ParseArchive(g, rules, archive, source).value;
      CreateArchive(g, rules, files) == Ok(archive) && InspectContents(rules, files, source) == Ok(build)
  {
    hide Tar, ReadTar, CanonicalGzip, RawLimit, Word32;
    var tar := g.expand(archive, Word32(archive[|archive| - 4..])).value;
    WriteReadTar(PACKAGE_FILES, tar);
  }

  /** Writing and strict reading are mutual inverses. */
  lemma ArchiveBijection<Build, Source>(g: Gzip, rules: Rules<Build, Source>, archive: Bytes, source: Option<Source>, files: Contents, build: Build)
    requires GzipContract(g)
    ensures ParseArchive(g, rules, archive, source) == Ok((files, build)) <==>
            CreateArchive(g, rules, files) == Ok(archive) && InspectContents(rules, files, source) == Ok(build)
  {
    if ParseArchive(g, rules, archive, source) == Ok((files, build)) {
      CreateParsed(g, rules, archive, source);
    }
    if CreateArchive(g, rules, files) == Ok(archive) {
      ParseCreated(g, rules, files, archive, source);
    }
  }

  // The same in terms of the files, the compressor and the rules alone.

  /** The archive is the compressor's output for `tar`, with the byte that names the operating system made 3. */
  ghost predicate IsCanonical(g: Gzip, tar: Bytes, archive: Bytes) {
    var z := g.compress(tar);
    |z| >= 18 && z[..9] == [31, 139, 8, 0, 0, 0, 0, 0, 2] && |archive| == |z| && archive[9] == 3
    && forall i :: 0 <= i < |z| && i != 9 ==> archive[i] == z[i]
  }

  /** The seven files and no others, each within its limit. */
  ghost predicate Admissible(files: Contents) {
    (forall f :: f in files <==> f in PACKAGE_FILES) && (forall f :: f in files ==> |files[f]| <= FileLimit(f))
  }

  lemma CanonicalMeaning(g: Gzip, tar: Bytes, archive: Bytes)
    ensures CanonicalGzip(g, tar) == Ok(archive) <==> IsCanonical(g, tar, archive)
    ensures CanonicalGzip(g, tar).Err? ==> CanonicalGzip(g, tar) == Err(EncoderHeader)
  {
    var z := g.compress(tar);
    assert GZIP_HEADER[..OS_BYTE] == [31, 139, 8, 0, 0, 0, 0, 0, 2];
    if |z| >= 18 {
      assert WithOsByte(z)[9] == 3 && forall i :: 0 <= i < |z| && i != 9 ==> WithOsByte(z)[i] == z[i];
      assert IsCanonical(g, tar, archive) ==> archive == WithOsByte(z);
    }
  }

  lemma InspectionMeaning<Build, Source>(rules: Rules<Build, Source>, files: Contents, source: Option<Source>, build: Build)
    ensures InspectContents(rules, files, source) == Ok(build) <==>
            Admissible(files) && rules.admit(files) == Some(build) && (source.Some? ==> rules.sourceOf(build) == source.value)
    ensures InspectContents(rules, files, source) == Err(MemberSize) <==> !Admissible(files)
    ensures InspectContents(rules, files, source).Err? ==>
              InspectContents(rules, files, source).error == if Admissible(files) then Rejected else MemberSize
  {
  }

  /**
   What reading an archive is: files and a build come out exactly when the files are admissible, the archive is canonical for
   them, they are admitted with that build, and the build is of the source that was asked for, if one was.
   */
  ghost predicate IsReading<Build(!new), Source(!new)>(g: Gzip, rules: Rules<Build, Source>, archive: Bytes, source: Option<Source>,
                                                       r: Result<(Contents, Build), Reason>) {
    forall files, build :: r == Ok((files, build)) <==>
      && Admissible(files) && IsCanonical(g, Tar(PACKAGE_FILES, files), archive)
      && rules.admit(files) == Some(build) && (source.Some? ==> rules.sourceOf(build) == source.value)
  }

  lemma ParsedExactly<Build(!new), Source(!new)>(g: Gzip, rules: Rules<Build, Source>, archive: Bytes, source: Option<Source>)
    requires GzipContract(g)
    ensures IsReading(g, rules, archive, source, ParseArchive(g, rules, archive, source))
  {
    hide ParseArchive, InspectContents, IsCanonical, CanonicalGzip, CreateArchive;
    forall files, build
      ensures ParseArchive(g, rules, archive, source) == Ok((files, build)) <==>
              && Admissible(files) && IsCanonical(g, Tar(PACKAGE_FILES, files), archive)
              && rules.admit(files) == Some(build) && (source.Some? ==> rules.sourceOf(build) == source.value)
    {
      ArchiveBijection(g, rules, archive, source, files, build);
      InspectionMeaning(rules, files, source, build);
      CreatedExactly(g, rules, files, archive);
    }
  }

  /** An archive is created exactly of admitted files, and is canonical for them. */
  lemma CreatedExactly<Build, Source>(g: Gzip, rules: Rules<Build, Source>, files: Contents, archive: Bytes)
    ensures CreateArchive(g, rules, files) == Ok(archive) <==>
            Admissible(files) && rules.admit(files).Some? && IsCanonical(g, Tar(PACKAGE_FILES, files), archive)
    ensures CreateArchive(g, rules, files).Err? ==>
              CreateArchive(g, rules, files).error ==
              if !Admissible(files) then MemberSize else if rules.admit(files).None? then Rejected else EncoderHeader
  {
    hide IsCanonical, CanonicalGzip;
    var inspected := InspectContents(rules, files, None);
    if inspected.Ok? {
      InspectionMeaning(rules, files, None, inspected.value);
    }
    if rules.admit(files).Some? {
      InspectionMeaning(rules, files, None, rules.admit(files).value);
    }
    if Admissible(files) {
      CanonicalMeaning(g, Tar(PACKAGE_FILES, files), archive);
    }
  }

  // The code: a header filled in place, a list of blocks, and a reader that moves an offset along.

  function Overlay(s: Bytes, offset: nat, bytes: Bytes): (r: Bytes)
    requires offset + |bytes| <= |s|
    ensures |r| == |s|
    ensures forall i :: 0 <= i < |s| ==> r[i] == if offset <= i < offset + |bytes| then bytes[i - offset] else s[i]
  {
    s[..offset] + bytes + s[offset + |bytes|..]
  }

  /** Buffer.write and Buffer.fill. */
  method Put(buffer: array<Byte>, offset: nat, bytes: Bytes)
    requires offset + |bytes| <= buffer.Length
    modifies buffer
    ensures buffer[..] == Overlay(old(buffer[..]), offset, bytes)
  {
    for k := 0 to |bytes|
      invariant forall i :: 0 <= i < buffer.Length ==>
                  buffer[i] == if offset <= i < offset + k then bytes[i - offset] else old(buffer[i])
    {
      buffer[offset + k] := bytes[k];
    }
  }

  method SumOf(buffer: array<Byte>) returns (sum: nat)
    ensures sum == Sum(buffer[..])
  {
    sum := 0;
    for i := 0 to buffer.Length
      invariant sum + Sum(buffer[i..]) == Sum(buffer[..])
    {
      assert buffer[i..][1..] == buffer[i + 1..];
      sum := sum + buffer[i];
    }
  }

  /** The fields written before the checksum is known, in the order of the writes. */
  ghost function Fields(f: PackageFile, size: nat): (r: Bytes)
    ensures |r| == BLOCK
  {
    var named := Overlay(Zeros(BLOCK), 0, Name(f));
    var owned := Overlay(Overlay(Overlay(named, 100, OctalField(8, Mode(f))), 108, OctalField(8, 0)), 116, OctalField(8, 0));
    var dated := Overlay(Overlay(owned, 124, OctalField(12, size)), 136, OctalField(12, 0));
    Overlay(Overlay(Overlay(Overlay(dated, 148, BLANK_CHECKSUM), 156, [48]), 257, USTAR), 263, VERSION)
  }

  lemma FieldsAreHeader(f: PackageFile, size: nat, checksum: Bytes)
    requires |checksum| == 8
    ensures Overlay(Fields(f, size), CHECKSUM_OFFSET, checksum) == HeaderWith(f, size, checksum)
  {
    hide OctalField, Mode, Name, Overlay;
  }

  lemma BlankFields(f: PackageFile, size: nat)
    ensures Fields(f, size) == HeaderWith(f, size, BLANK_CHECKSUM)
  {
    hide OctalField, Mode, Name, Overlay;
  }

  lemma ModeIs(f: PackageFile)
    ensures Mode(f) == if f == Kizuki || f == KizukiMcp then 493 else 420
  {
  }

  method FillHeader(f: PackageFile, size: nat) returns (block: array<Byte>)
    ensures fresh(block) && block[..] == Header(f, size)
  {
    hide Overlay, OctalField, HeaderWith, Name, Mode;
    ModeIs(f);
    block := new Byte[BLOCK](_ => 0);
    assert block[..] == Zeros(BLOCK);
    Put(block, 0, Name(f));
    Put(block, 100, OctalField(8, if f == Kizuki || f == KizukiMcp then 493 else 420));
    Put(block, 108, OctalField(8, 0));
    Put(block, 116, OctalField(8, 0));
    Put(block, 124, OctalField(12, size));
    Put(block, 136, OctalField(12, 0));
    Put(block, 148, [32, 32, 32, 32, 32, 32, 32, 32]);
    Put(block, 156, [48]);
    Put(block, 257, [0x75, 0x73, 0x74, 0x61, 0x72, 0]);
    Put(block, 263, [0x30, 0x30]);
    BlankFields(f, size);
    var sum := SumOf(block);
    FieldsAreHeader(f, size, ChecksumField(sum));
    Put(block, CHECKSUM_OFFSET, (PadStart(ToOctal(sum), 6) + [0, 32])[..8]);
  }

  method WriteTar(files: Contents) returns (tar: Bytes)
    requires Complete(files)
    ensures tar == Tar(PACKAGE_FILES, files)
  {
    hide Tar, Header, Flatten;
    var blocks: seq<Bytes> := [];
    TarStart(files);
    for i := 0 to |PACKAGE_FILES|
      invariant Flatten(blocks) + Tar(PACKAGE_FILES[i..], files) == Tar(PACKAGE_FILES, files)
    {
      var f := PACKAGE_FILES[i];
      var data := files[f];
      var header := FillHeader(f, |data|);
      TarPush(blocks, i, files);
      blocks := blocks + [header[..]] + [data] + [Zeros(Padding(|data|))];
    }
    FlattenPush(blocks, Zeros(2 * BLOCK));
    NoEntries(files);
    blocks := blocks + [Zeros(2 * BLOCK)];
    tar := Flatten(blocks);
  }

  lemma TarStart(files: Contents)
    requires Complete(files)
    ensures Flatten<Byte>([]) + Tar(PACKAGE_FILES[0..], files) == Tar(PACKAGE_FILES, files) && PACKAGE_FILES[|PACKAGE_FILES|..] == []
  {
    hide Tar;
    assert PACKAGE_FILES[0..] == PACKAGE_FILES;
  }

  lemma TarPush(blocks: seq<Bytes>, i: nat, files: Contents)
    requires Complete(files) && i < |PACKAGE_FILES|
    ensures var data := files[PACKAGE_FILES[i]];
      Flatten(blocks + [Header(PACKAGE_FILES[i], |data|)] + [data] + [Zeros(Padding(|data|))]) + Tar(PACKAGE_FILES[i + 1..], files) ==
      Flatten(blocks) + Tar(PACKAGE_FILES[i..], files)
  {
    hide Header, Flatten;
    var data := files[PACKAGE_FILES[i]];
    var h, pad := Header(PACKAGE_FILES[i], |data|), Zeros(Padding(|data|));
    FlattenPush(blocks, h);
    FlattenPush(blocks + [h], data);
    FlattenPush(blocks + [h] + [data], pad);
    assert PACKAGE_FILES[i..][1..] == PACKAGE_FILES[i + 1..];
    var rest := Tar(PACKAGE_FILES[i + 1..], files);
    assert Flatten(blocks) + h + data + pad + rest == Flatten(blocks) + (h + (data + pad) + rest);
  }

  method CreatePackageArchive<Build, Source(==)>(g: Gzip, rules: Rules<Build, Source>, files: Contents) returns (r: Result<Bytes, Reason>)
    ensures r == CreateArchive(g, rules, files)
    ensures forall archive :: r == Ok(archive) <==>
              Admissible(files) && rules.admit(files).Some? && IsCanonical(g, Tar(PACKAGE_FILES, files), archive)
    ensures r.Err? ==> r.error == if !Admissible(files) then MemberSize else if rules.admit(files).None? then Rejected else EncoderHeader
  {
    forall archive
      ensures CreateArchive(g, rules, files) == Ok(archive) <==>
              Admissible(files) && rules.admit(files).Some? && IsCanonical(g, Tar(PACKAGE_FILES, files), archive)
    {
      CreatedExactly(g, rules, files, archive);
    }
    CreatedExactly(g, rules, files, []);
    var inspected := Inspect(rules, files, None);
    match inspected {
      case Err(reason) => r := Err(reason);
      case Ok(_) =>
        var tar := WriteTar(files);
        r := EncodeGzip(g, tar);
    }
  }

  /** The members as a package directory: all there, none else, none too large; then what BUILD.json says of them. */
  method Inspect<Build, Source(==)>(rules: Rules<Build, Source>, files: Contents, source: Option<Source>) returns (r: Result<Build, Reason>)
    ensures r == InspectContents(rules, files, source)
  {
    hide FileLimit;
    for i := 0 to |PACKAGE_FILES|
      invariant forall k :: 0 <= k < i ==> PACKAGE_FILES[k] in files && |files[PACKAGE_FILES[k]]| <= FileLimit(PACKAGE_FILES[k])
    {
      var f := PACKAGE_FILES[i];
      if f !in files || |files[f]| > FileLimit(f) {
        return Err(MemberSize);
      }
    }
    AllListed();
    forall f: PackageFile ensures f in files && |files[f]| <= FileLimit(f) {
      assert f in PACKAGE_FILES;
      var k :| 0 <= k < |PACKAGE_FILES| && PACKAGE_FILES[k] == f;
    }
    var build := rules.admit(files);
    if build.None? {
      return Err(Rejected);
    }
    if source.Some? && rules.sourceOf(build.value) != source.value {
      return Err(Rejected);
    }
    return Ok(build.value);
  }

  lemma AllListed()
    ensures forall f: PackageFile :: f in PACKAGE_FILES
  {
    forall f: PackageFile ensures f in PACKAGE_FILES {
      match f case Kizuki => case KizukiMcp => case Readme => case License => case Notices => case BuildJson => case Sha256Sums =>
    }
  }

  method EncodeGzip(g: Gzip, tar: Bytes) returns (r: Result<Bytes, Reason>)
    ensures r == CanonicalGzip(g, tar)
  {
    var z := g.compress(tar);
    if |z| < 18 {
      return Err(EncoderHeader);
    }
    for i := 0 to 9
      invariant forall k :: 0 <= k < i ==> z[k] == GZIP_HEADER[k]
    {
      if z[i] != GZIP_HEADER[i] {
        assert z[..9][i] != GZIP_HEADER[..9][i];
        return Err(EncoderHeader);
      }
    }
    assert z[..9] == GZIP_HEADER[..9];
    return Ok(z[9 := GZIP_HEADER[9]]);
  }

  /** The members read so far, over what is still to be read. */
  ghost function WithEntries(r: Result<Contents, Reason>, entries: Contents): Result<Contents, Reason> {
    match r
    case Err(reason) => Err(reason)
    case Ok(files) => Ok(files + entries)
  }

  /** One member at `offset`; `next` is where the one after it starts. */
  method ReadMember(f: PackageFile, tar: Bytes, offset: nat) returns (r: Result<(Bytes, nat), Reason>)
    requires offset <= |tar|
    ensures r.Ok? ==> offset <= r.value.1 <= |tar|
    ensures ReadEntry(f, tar[offset..]) ==
            match r { case Err(reason) => Err(reason) case Ok((data, next)) => Ok((data, tar[next..])) }
  {
    hide ReadEntry, RoundUp, Header, FileLimit, ParseOctal, AllZero;
    if offset + BLOCK > |tar| {
      ReadEntryShort(f, tar, offset);
      return Err(TarTruncated);
    }
    ReadEntryAt(f, tar, offset);
    var raw := tar[offset..offset + BLOCK];
    var field := SevenBit(raw[124..136]);
    FieldWhen(field);
    if field[11] != 0 || exists k :: 0 <= k < 11 && (field[k] < 0x30 || field[k] > 0x37) {
      return Err(TarSize);
    }
    var size := ParseOctal(field[..11]);
    if size > FileLimit(f) {
      return Err(SizeLimit);
    }
    var expected := FillHeader(f, size);
    if raw != expected[..] {
      return Err(TarHeader);
    }
    var start := offset + BLOCK;
    var end, next := start + size, start + RoundUp(size);
    if next > |tar| || !AllZero(tar[end..next]) {
      return Err(TarPadding);
    }
    return Ok((tar[start..end], next));
  }

  lemma FieldWhen(field: Bytes)
    requires |field| == 12
    ensures IsField(12, field) <==> field[11] == 0 && !exists k :: 0 <= k < 11 && (field[k] < 0x30 || field[k] > 0x37)
  {
    assert forall k :: 0 <= k < 11 ==> field[..11][k] == field[k];
    if k :| 0 <= k < 11 && (field[k] < 0x30 || field[k] > 0x37) {
      assert !IsOctalDigit(field[..11][k]);
    }
  }

  method ReadMembers(tar: Bytes) returns (r: Result<Contents, Reason>)
    ensures r == ReadTar(PACKAGE_FILES, tar)
  {
    hide ReadEntry;
    var entries: Contents := map[];
    var offset: nat := 0;
    assert tar[0..] == tar;
    EntriesNone(ReadTar(PACKAGE_FILES, tar));
    for i := 0 to |PACKAGE_FILES|
      invariant offset <= |tar|
      invariant forall f :: f in entries <==> f in PACKAGE_FILES[..i]
      invariant ReadTar(PACKAGE_FILES, tar) == WithEntries(ReadTar(PACKAGE_FILES[i..], tar[offset..]), entries)
    {
      ReadTarStep(i, tar[offset..], entries);
      var read := ReadMember(PACKAGE_FILES[i], tar, offset);
      if read.Err? {
        return Err(read.error);
      }
      assert PACKAGE_FILES[..i + 1] == PACKAGE_FILES[..i] + [PACKAGE_FILES[i]];
      entries := entries[PACKAGE_FILES[i] := read.value.0];
      offset := read.value.1;
    }
    assert PACKAGE_FILES[7..] == [];
    if |tar| != offset + 2 * BLOCK || !AllZero(tar[offset..]) {
      return Err(TarTrailing);
    }
    assert map[] + entries == entries;
    return Ok(entries);
  }

  lemma EntriesNone(r: Result<Contents, Reason>)
    ensures WithEntries(r, map[]) == r
  {
    if r.Ok? {
      assert r.value + map[] == r.value;
    }
  }

  lemma ReadTarStep(i: nat, tar: Bytes, entries: Contents)
    requires i < |PACKAGE_FILES| && forall f :: f in entries <==> f in PACKAGE_FILES[..i]
    ensures WithEntries(ReadTar(PACKAGE_FILES[i..], tar), entries) ==
      match ReadEntry(PACKAGE_FILES[i], tar) {
        case Err(reason) => Err(reason)
        case Ok((data, rest)) => WithEntries(ReadTar(PACKAGE_FILES[i + 1..], rest), entries[PACKAGE_FILES[i] := data])
      }
  {
    hide ReadEntry, PACKAGE_FILES;
    var f := PACKAGE_FILES[i];
    NotBefore(i);
    assert PACKAGE_FILES[i..][1..] == PACKAGE_FILES[i + 1..];
    match ReadEntry(f, tar)
    case Err(_) =>
    case Ok((data, rest)) =>
      var inner := ReadTar(PACKAGE_FILES[i + 1..], rest);
      if inner.Ok? {
        EntryJoins(inner.value, entries, f, data);
      }
  }

  lemma NotBefore(i: nat)
    requires i < |PACKAGE_FILES|
    ensures PACKAGE_FILES[i] !in PACKAGE_FILES[..i]
  {
  }

  lemma EntryJoins(inner: Contents, entries: Contents, f: PackageFile, data: Bytes)
    requires f !in entries
    ensures inner[f := data] + entries == inner + entries[f := data]
  {
  }

  lemma ReadEntryShort(f: PackageFile, tar: Bytes, offset: nat)
    requires offset <= |tar| < offset + BLOCK
    ensures ReadEntry(f, tar[offset..]) == Err(TarTruncated)
  {
  }

  /** Reading at an offset, in terms of slices of the whole stream. */
  lemma ReadEntryAt(f: PackageFile, tar: Bytes, offset: nat)
    requires offset + BLOCK <= |tar|
    ensures var raw := tar[offset..offset + BLOCK];
      ReadEntry(f, tar[offset..]) ==
        if !IsField(12, SevenBit(raw[124..136])) then Err(TarSize)
        else
          var size := ParseOctal(SevenBit(raw[124..136])[..11]);
          var start := offset + BLOCK;
          if size > FileLimit(f) then Err(SizeLimit)
          else if raw != Header(f, size) then Err(TarHeader)
          else if start + RoundUp(size) > |tar| || !AllZero(tar[start + size..start + RoundUp(size)]) then Err(TarPadding)
          else Ok((tar[start..start + size], tar[start + RoundUp(size)..]))
  {
    hide Header, FileLimit, SevenBit, ParseOctal, AllZero, RoundUp;
    var t := tar[offset..];
    SliceOfRest(tar, offset, 0, BLOCK);
    assert t[124..136] == t[0..BLOCK][124..136];
    var field := SevenBit(t[124..136]);
    if IsField(12, field) {
      var size := ParseOctal(field[..11]);
      var end, next := BLOCK + size, BLOCK + RoundUp(size);
      if next <= |t| {
        SliceOfRest(tar, offset, BLOCK, end);
        SliceOfRest(tar, offset, end, next);
      }
    }
  }

  lemma SliceOfRest(s: Bytes, offset: nat, from: nat, to: nat)
    requires offset <= |s| && from <= to <= |s| - offset
    ensures s[offset..][from..to] == s[offset + from..offset + to] && s[offset..][to..] == s[offset + to..]
  {
  }

  method ParsePackageArchive<Build(!new), Source(==, !new)>(g: Gzip, rules: Rules<Build, Source>, archive: Bytes, source: Option<Source>)
    returns (r: Result<(Contents, Build), Reason>)
    ensures r == ParseArchive(g, rules, archive, source)
    ensures GzipContract(g) ==> IsReading(g, rules, archive, source, r)
  {
    hide IsReading;
    if GzipContract(g) {
      ParsedExactly(g, rules, archive, source);
    }
    if |archive| < 18 || |archive| > ARCHIVE_LIMIT {
      return Err(ArchiveSize);
    }
    if archive[..10] != GZIP_HEADER {
      return Err(GzipHeader);
    }
    var announced := Word32(archive[|archive| - 4..]);
    if announced < 9 * BLOCK || announced > RAW_LIMIT || announced % BLOCK != 0 {
      return Err(UnpackedSize);
    }
    match g.expand(archive, announced) {
      case None =>
        return Err(GzipInvalid);
      case Some(tar) =>
        if |tar| != announced {
          return Err(UnpackedSize);
        }
        var again := EncodeGzip(g, tar);
        if again != Ok(archive) {
          return Err(GzipNoncanonical);
        }
        var read := ReadMembers(tar);
        if read.Err? {
          return Err(read.error);
        }
        var inspected := Inspect(rules, read.value, source);
        if inspected.Err? {
          return Err(inspected.error);
        }
        return Ok((read.value, inspected.value));
    }
  }
}
