/** The CCSDS Unsegmented Time Code (section 3.2 of CCSDS 301.0-B-4) as the
    library supports it: four bytes of coarse time (whole seconds) followed
    by zero to three bytes of fine time (binary fractions of a second), with
    or without a leading p-field byte that names the format.

    The library supports sixteen formats, one per combination of three
    choices: the epoch (1 January 1958, or agency-defined), whether the
    p-field byte is embedded in the encoding, and the number of fine bytes.
    The codes with the p-field's extension bit set (0x9C to 0x9F and 0xAC to
    0xAF) are the library's own marker for "p-field not embedded".

    Only the integer parts are modelled. The conversion between nanoseconds
    and fine-time counts is floating-point arithmetic in the library; here it
    is a function parameter `scale`, which maps a fine width and a
    non-negative nanosecond count to the fine-time count. */
module CucTime {
  import opened Bytes
  import opened Errors
  import DataUnit

  /* ---------------------------------------------------------------------
     P-field codes.
     --------------------------------------------------------------------- */

  datatype Epoch = Epoch1958 | AgencyEpoch

  /** A time format: the epoch, whether the p-field byte is embedded in the
      encoding, and the number of fine-time bytes. */
  datatype Format = Format(epoch: Epoch, embedded: bool, width: nat)

  predicate ValidFormat(f: Format)
  {
    f.width <= 3
  }

  /** The code of a format: 0x1C (1958 epoch) or 0x2C (agency epoch) for an
      embedded p-field, 0x9C or 0xAC for an implicit one, plus the number of
      fine bytes. */
  function Code(f: Format): (c: Byte)
    requires ValidFormat(f)
  {
    (match (f.epoch, f.embedded)
      case (Epoch1958, true) => 0x1c
      case (AgencyEpoch, true) => 0x2c
      case (Epoch1958, false) => 0x9c
      case (AgencyEpoch, false) => 0xac) + f.width
  }

  /** The format a p-field code names; the library supports the sixteen
      codes 0x1C-0x1F, 0x2C-0x2F, 0x9C-0x9F and 0xAC-0xAF. */
  function FormatOf(c: Byte): (r: Result<Format>)
    ensures r.Ok? ==> ValidFormat(r.value) && Code(r.value) == c
    ensures r.Err? ==> r.error == InvalidPField
  {
    if 0x1c <= c <= 0x1f then Ok(Format(Epoch1958, true, c - 0x1c))
    else if 0x2c <= c <= 0x2f then Ok(Format(AgencyEpoch, true, c - 0x2c))
    else if 0x9c <= c <= 0x9f then Ok(Format(Epoch1958, false, c - 0x9c))
    else if 0xac <= c <= 0xaf then Ok(Format(AgencyEpoch, false, c - 0xac))
    else Err(InvalidPField)
  }

  /** Every format's code names that format, so the sixteen codes and the
      sixteen formats correspond one to one. */
  lemma FormatOfCode(f: Format)
    requires ValidFormat(f)
    ensures FormatOf(Code(f)) == Ok(f)
  {
  }

  /** The supported codes. */
  predicate IsPFieldCode(c: Byte)
  {
    FormatOf(c).Ok?
  }

  /** `has_p_field`: the codes whose encoding starts with the p-field. */
  predicate HasPField(c: Byte)
  {
    0x1c <= c <= 0x1f || 0x2c <= c <= 0x2f
  }

  /** `has_p_field` holds exactly for the supported codes of formats that
      embed the p-field. */
  lemma HasPFieldMeaning(c: Byte)
    ensures HasPField(c) <==> FormatOf(c).Ok? && FormatOf(c).value.embedded
  {
  }

  /** `get_data_size`: bytes of coarse and fine time of a code's format. */
  function DataSize(c: Byte): Result<nat>
  {
    var f :- FormatOf(c);
    Ok(4 + f.width)
  }

  /** `get_full_data_size`: bytes of the whole encoding of a code's format,
      the p-field included when it is embedded. */
  function FullDataSize(c: Byte): Result<nat>
  {
    var f :- FormatOf(c);
    Ok(4 + f.width + (if f.embedded then 1 else 0))
  }

  /** The size tables: both reject exactly the unsupported codes; the data
      size is four coarse bytes plus the low two bits of the code; the full
      size adds the p-field byte for the codes `has_p_field` accepts. */
  lemma SizeTables(c: Byte)
    ensures DataSize(c).Ok? <==> IsPFieldCode(c)
    ensures FullDataSize(c).Ok? <==> IsPFieldCode(c)
    ensures DataSize(c).Err? ==> DataSize(c).error == InvalidPField
    ensures FullDataSize(c).Err? ==> FullDataSize(c).error == InvalidPField
    ensures DataSize(c).Ok? ==> DataSize(c).value == 4 + c % 4
    ensures FullDataSize(c).Ok? ==>
      FullDataSize(c).value == DataSize(c).value + (if HasPField(c) then 1 else 0)
  {
  }

  /* ---------------------------------------------------------------------
     Coarse time: four bytes of seconds, most significant first.
     --------------------------------------------------------------------- */

  datatype CoarseTime = CoarseTime(c0: Byte, c1: Byte, c2: Byte, c3: Byte)

  function CoarseBytes(c: CoarseTime): (r: seq<Byte>)
    ensures |r| == 4
  {
    [c.c0, c.c1, c.c2, c.c3]
  }

  /** `CoarseTime::to_sec`. */
  function ToSec(c: CoarseTime): int
  {
    c.c0 * 0x100_0000 + c.c1 * 0x1_0000 + c.c2 * 0x100 + c.c3
  }

  /** `CoarseTime::init_from_sec`: negative seconds and seconds beyond the
      `u32` range are rejected; otherwise the seconds are split into bytes by
      repeated `& 0xff` and `>> 8`. */
  function InitFromSec(sec: int): (r: Result<CoarseTime>)
    ensures r.Ok? <==> 0 <= sec < 0x1_0000_0000
    ensures r.Err? && sec < 0 ==> r.error == NegativeSeconds
    ensures r.Err? && sec >= 0 ==> r.error == SecondsOutOfRange
  {
    if sec < 0 then Err(NegativeSeconds)
    else if sec > 0xFFFF_FFFF then Err(SecondsOutOfRange)
    else
      var b := ToBE(sec, 4);
      Ok(CoarseTime(b[0], b[1], b[2], b[3]))
  }

  /** The seconds are the big-endian number of the four coarse bytes. */
  lemma ToSecIsBE(c: CoarseTime)
    ensures ToSec(c) == BE(CoarseBytes(c))
  {
    var s := CoarseBytes(c);
    assert s[..3] == [c.c0, c.c1, c.c2];
    assert s[..3][..2] == [c.c0, c.c1];
    assert s[..3][..2][..1] == [c.c0];
    assert s[..3][..2][..1][..0] == [];
    assert BE([c.c0]) == c.c0;
    assert BE([c.c0, c.c1]) == c.c0 * 256 + c.c1;
    assert BE([c.c0, c.c1, c.c2]) == (c.c0 * 256 + c.c1) * 256 + c.c2;
  }

  /** Seconds read back from coarse time are always in the `u32` range. */
  lemma ToSecRange(c: CoarseTime)
    ensures 0 <= ToSec(c) < 0x1_0000_0000
  {
    ToSecIsBE(c);
    BEBound(CoarseBytes(c));
    assert Pow256(4) == 0x1_0000_0000;
  }

  /** Accepted seconds are stored exactly: `to_sec` gives them back. */
  lemma InitFromSecToSec(sec: int)
    requires InitFromSec(sec).Ok?
    ensures ToSec(InitFromSec(sec).value) == sec
  {
    var c := InitFromSec(sec).value;
    assert CoarseBytes(c) == ToBE(sec, 4);
    ToSecIsBE(c);
    assert Pow256(4) == 0x1_0000_0000;
    BEOfToBEExact(sec, 4);
  }

  /** Every coarse time is produced by `init_from_sec` from its seconds. */
  lemma ToSecInitFromSec(c: CoarseTime)
    ensures InitFromSec(ToSec(c)) == Ok(c)
  {
    ToSecRange(c);
    ToSecIsBE(c);
    ToBEOfBE(CoarseBytes(c));
  }

  /** `CoarseTime::init_from_bytes`: the first four bytes. */
  function CoarseFromBytes(bytes: seq<Byte>): (c: CoarseTime)
    requires |bytes| >= 4
    ensures CoarseBytes(c) == bytes[..4]
  {
    CoarseTime(bytes[0], bytes[1], bytes[2], bytes[3])
  }

  /* ---------------------------------------------------------------------
     Fine time: zero to three bytes of binary second fractions.
     --------------------------------------------------------------------- */

  datatype FineTime =
    | Fine0
    | Fine1(f0: Byte)
    | Fine2(f0: Byte, f1: Byte)
    | Fine3(f0: Byte, f1: Byte, f2: Byte)

  function FineWidth(f: FineTime): (w: nat)
    ensures w <= 3
  {
    match f
    case Fine0 => 0
    case Fine1(_) => 1
    case Fine2(_, _) => 2
    case Fine3(_, _, _) => 3
  }

  function FineBytes(f: FineTime): (r: seq<Byte>)
    ensures |r| == FineWidth(f)
  {
    match f
    case Fine0 => []
    case Fine1(a) => [a]
    case Fine2(a, b) => [a, b]
    case Fine3(a, b, c) => [a, b, c]
  }

  /** `FineTime<w>::init_from_bytes`: the first `w` bytes; width 0 reads
      nothing. */
  function FineFromBytes(w: nat, bytes: seq<Byte>): (f: FineTime)
    requires w <= 3 && |bytes| >= w
    ensures FineWidth(f) == w && FineBytes(f) == bytes[..w]
  {
    if w == 0 then Fine0
    else if w == 1 then Fine1(bytes[0])
    else if w == 2 then Fine2(bytes[0], bytes[1])
    else Fine3(bytes[0], bytes[1], bytes[2])
  }

  /** `FineTime<w>::init_from_nsec`: negative nanoseconds are rejected;
      otherwise the fine-time count `scale(w, nsec)` is split into `w` bytes
      by repeated `& 0xff` and `>> 8`, dropping what does not fit. Width 0
      stores nothing and never consults `scale`. */
  function FineFromNsec(w: nat, nsec: int, scale: (nat, nat) -> nat): (r: Result<FineTime>)
    requires w <= 3
    ensures r.Ok? <==> nsec >= 0
    ensures r.Err? ==> r.error == NegativeFraction
    ensures r.Ok? ==> FineWidth(r.value) == w
    ensures r.Ok? && w > 0 ==> BE(FineBytes(r.value)) == scale(w, nsec) % Pow256(w)
  {
    if nsec < 0 then Err(NegativeFraction)
    else if w == 0 then Ok(Fine0)
    else
      var b := ToBE(scale(w, nsec), w);
      BEOfToBE(scale(w, nsec), w);
      assert b[..w] == b;
      Ok(FineFromBytes(w, b))
  }

  /* ---------------------------------------------------------------------
     Time values.
     --------------------------------------------------------------------- */

  /** One value of one of the sixteen formats: the format is the epoch, the
      embedding of the p-field and the width of the fine part. The library's
      `new_*_init` constructors are this datatype's constructor. */
  datatype Time = Time(epoch: Epoch, embedded: bool, coarse: CoarseTime, fine: FineTime)

  /** The format of a value. */
  function FormatOfTime(t: Time): (f: Format)
    ensures ValidFormat(f)
  {
    Format(t.epoch, t.embedded, FineWidth(t.fine))
  }

  /** `get_p_field`: the code of the value's format. */
  function GetPField(t: Time): (c: Byte)
    ensures FormatOf(c) == Ok(FormatOfTime(t))
  {
    FormatOfCode(FormatOfTime(t));
    Code(FormatOfTime(t))
  }

  function ZeroFine(w: nat): (f: FineTime)
    requires w <= 3
    ensures FineWidth(f) == w && forall i :: 0 <= i < w ==> FineBytes(f)[i] == 0
  {
    if w == 0 then Fine0 else if w == 1 then Fine1(0) else if w == 2 then Fine2(0, 0) else Fine3(0, 0, 0)
  }

  /** The empty constructors `new_l1_time_4_0` ... `new_t2_time_4_3`: a
      value of the requested format. */
  function NewTime(f: Format): (t: Time)
    requires ValidFormat(f)
    ensures FormatOfTime(t) == f
  {
    Time(f.epoch, f.embedded, CoarseTime(0, 0, 0, 0), ZeroFine(f.width))
  }

  /** An empty value holds zero seconds ... */
  lemma NewTimeZeroSeconds(f: Format)
    requires ValidFormat(f)
    ensures ToSec(NewTime(f).coarse) == 0
  {
  }

  /** ... and an all-zero fine part. */
  lemma NewTimeZeroFine(f: Format)
    requires ValidFormat(f)
    ensures forall i :: 0 <= i < f.width ==> FineBytes(NewTime(f).fine)[i] == 0
  {
  }

  /** `new_from_p_field`: the empty value of the format a code names, or an
      error for an unsupported code. */
  function NewFromPField(c: Byte): (r: Result<Time>)
    ensures r.Ok? <==> IsPFieldCode(c)
    ensures r.Err? ==> r.error == InvalidPField
    ensures r.Ok? ==> GetPField(r.value) == c
    ensures r.Ok? ==> r.value == NewTime(FormatOfTime(r.value))
  {
    var f :- FormatOf(c);
    Ok(NewTime(f))
  }

  /** Every value's code leads back to the empty value of its format. */
  lemma PFieldRoundTrip(t: Time)
    ensures NewFromPField(GetPField(t)) == Ok(NewTime(FormatOfTime(t)))
  {
  }

  /** Values of distinct formats have distinct codes. */
  lemma CodeInjective(t: Time, u: Time)
    requires GetPField(t) == GetPField(u)
    ensures FormatOfTime(t) == FormatOfTime(u)
  {
  }

  /** Bytes in a format's encoding: the p-field when embedded, four coarse
      bytes and the fine bytes. */
  function EncodedSize(t: Time): (n: nat)
    ensures 4 <= n <= 8
  {
    (if t.embedded then 1 else 0) + 4 + FineWidth(t.fine)
  }

  /** The size tables agree with the formats: `get_data_size` counts the
      coarse and fine bytes, `get_full_data_size` the whole encoding, and
      `has_p_field` holds exactly for the embedded formats. */
  lemma SizesOfFormat(t: Time)
    ensures IsPFieldCode(GetPField(t))
    ensures HasPField(GetPField(t)) == t.embedded
    ensures DataSize(GetPField(t)) == Ok(4 + FineWidth(t.fine))
    ensures FullDataSize(GetPField(t)) == Ok(EncodedSize(t))
  {
  }

  /** The offset of the coarse bytes in an encoding. */
  function Offset(t: Time): (off: nat)
    ensures off + 4 + FineWidth(t.fine) == EncodedSize(t)
  {
    if t.embedded then 1 else 0
  }

  /** The bytes `update_to_bytes` writes. */
  function Encoding(t: Time): (r: seq<Byte>)
    ensures |r| == EncodedSize(t)
  {
    (if t.embedded then [GetPField(t)] else []) + CoarseBytes(t.coarse) + FineBytes(t.fine)
  }

  /** `Time::update_to_bytes`: writes the encoding at the start of `bytes`
      and leaves the rest alone. The library panics on a shorter slice. */
  function UpdateToBytes(t: Time, bytes: seq<Byte>): (r: seq<Byte>)
    requires |bytes| >= EncodedSize(t)
    ensures |r| == |bytes|
    ensures forall i :: EncodedSize(t) <= i < |r| ==> r[i] == bytes[i]
  {
    DataUnit.Overwrite(bytes, 0, Encoding(t))
  }

  /** Where `update_to_bytes` puts each part: an embedded p-field at byte 0,
      the coarse bytes next, the fine bytes after them. */
  lemma UpdateToBytesLayout(t: Time, bytes: seq<Byte>)
    requires |bytes| >= EncodedSize(t)
    ensures var r := UpdateToBytes(t, bytes); var off := Offset(t);
      (t.embedded ==> r[0] == GetPField(t)) &&
      r[off..off + 4] == CoarseBytes(t.coarse) &&
      r[off + 4..off + 4 + FineWidth(t.fine)] == FineBytes(t.fine)
  {
    var r := UpdateToBytes(t, bytes);
    var off := Offset(t);
    var e := Encoding(t);
    assert r[..EncodedSize(t)] == e;
    assert e[off..off + 4] == CoarseBytes(t.coarse);
    assert e[off + 4..] == FineBytes(t.fine);
  }

  /** `Time::init_from_bytes`: keeps the format and reads the coarse and
      fine bytes from their places; an embedded p-field byte is skipped and
      not compared with the format's code. The library panics on a shorter
      slice. */
  function InitFromBytes(t: Time, bytes: seq<Byte>): (r: Time)
    requires |bytes| >= EncodedSize(t)
    ensures r.epoch == t.epoch && r.embedded == t.embedded && FineWidth(r.fine) == FineWidth(t.fine)
  {
    var off := Offset(t);
    Time(t.epoch, t.embedded, CoarseFromBytes(bytes[off..]), FineFromBytes(FineWidth(t.fine), bytes[off + 4..]))
  }

  lemma EncodedCoarse(t: Time, bytes: seq<Byte>)
    requires |bytes| >= EncodedSize(t)
    ensures CoarseFromBytes(UpdateToBytes(t, bytes)[Offset(t)..]) == t.coarse
  {
    var r := UpdateToBytes(t, bytes);
    UpdateToBytesLayout(t, bytes);
    assert r[Offset(t)..][..4] == CoarseBytes(t.coarse);
  }

  lemma EncodedFine(t: Time, bytes: seq<Byte>)
    requires |bytes| >= EncodedSize(t)
    ensures FineFromBytes(FineWidth(t.fine), UpdateToBytes(t, bytes)[Offset(t) + 4..]) == t.fine
  {
    var r := UpdateToBytes(t, bytes);
    UpdateToBytesLayout(t, bytes);
    var w := FineWidth(t.fine);
    assert r[Offset(t) + 4..][..w] == FineBytes(t.fine);
    assert FineBytes(FineFromBytes(w, r[Offset(t) + 4..])) == FineBytes(t.fine);
  }

  /** Decoding what was encoded gives back the value, whatever value of the
      same format does the decoding. */
  lemma DecodeEncode(t: Time, u: Time, bytes: seq<Byte>)
    requires |bytes| >= EncodedSize(t)
    requires u.epoch == t.epoch && u.embedded == t.embedded && FineWidth(u.fine) == FineWidth(t.fine)
    ensures InitFromBytes(u, UpdateToBytes(t, bytes)) == t
  {
    EncodedCoarse(t, bytes);
    EncodedFine(t, bytes);
  }

  /** Encoding a decoded value rewrites the same bytes, provided an embedded
      p-field byte already held the format's code. */
  lemma EncodeDecode(t: Time, bytes: seq<Byte>)
    requires |bytes| >= EncodedSize(t)
    requires t.embedded ==> bytes[0] == GetPField(t)
    ensures UpdateToBytes(InitFromBytes(t, bytes), bytes) == bytes
  {
    var d := InitFromBytes(t, bytes);
    var off := Offset(t);
    var w := FineWidth(t.fine);
    assert bytes[off..][..4] == bytes[off..off + 4];
    assert bytes[off + 4..][..w] == bytes[off + 4..off + 4 + w];
    assert Encoding(d) == bytes[..EncodedSize(t)];
  }

  /** Decoding does not look at an embedded p-field byte. */
  lemma InitFromBytesSkipsPField(t: Time, bytes: seq<Byte>, b: Byte)
    requires |bytes| >= EncodedSize(t) && t.embedded
    ensures InitFromBytes(t, bytes[0 := b]) == InitFromBytes(t, bytes)
  {
    assert bytes[0 := b][1..] == bytes[1..];
  }

  /* ---------------------------------------------------------------------
     Conversion from a (seconds, nanoseconds) time stamp.
     --------------------------------------------------------------------- */

  /** The state after an in-place update and what the update reported. */
  datatype Update = Update(time: Time, outcome: Outcome)

  /** `Time::init_from_timespec`: sets the coarse time from the seconds,
      then the fine time from the nanoseconds. A rejected second count
      leaves the value as it was; rejected nanoseconds are reported after the
      coarse time was already overwritten, which is not rolled back. */
  function InitFromTimespec(t: Time, sec: int, nsec: int, scale: (nat, nat) -> nat): (r: Update)
    ensures r.time.epoch == t.epoch && r.time.embedded == t.embedded
    ensures FineWidth(r.time.fine) == FineWidth(t.fine)
    ensures InitFromSec(sec).Err? ==> r == Update(t, Failure(InitFromSec(sec).error))
    ensures InitFromSec(sec).Ok? && nsec < 0 ==>
      r == Update(t.(coarse := InitFromSec(sec).value), Failure(NegativeFraction))
    ensures InitFromSec(sec).Ok? && nsec >= 0 ==>
      r.outcome == Success && r.time.coarse == InitFromSec(sec).value &&
      r.time.fine == FineFromNsec(FineWidth(t.fine), nsec, scale).value
  {
    match InitFromSec(sec)
    case Err(e) => Update(t, Failure(e))
    case Ok(c) =>
      var t1 := t.(coarse := c);
      match FineFromNsec(FineWidth(t.fine), nsec, scale)
      case Err(e) => Update(t1, Failure(e))
      case Ok(f) => Update(t1.(fine := f), Success)
  }

  /** `Time::new_from_timespec`: the empty value of a format, initialised
      from the time stamp; any failure is returned as the error. */
  function NewFromTimespec(c: Byte, sec: int, nsec: int, scale: (nat, nat) -> nat): (r: Result<Time>)
    ensures r.Ok? <==> IsPFieldCode(c) && 0 <= sec < 0x1_0000_0000 && nsec >= 0
    ensures r.Err? && !IsPFieldCode(c) ==> r.error == InvalidPField
    ensures r.Err? && IsPFieldCode(c) && sec < 0 ==> r.error == NegativeSeconds
    ensures r.Err? && IsPFieldCode(c) && sec >= 0x1_0000_0000 ==> r.error == SecondsOutOfRange
    ensures r.Err? && IsPFieldCode(c) && 0 <= sec < 0x1_0000_0000 ==> r.error == NegativeFraction
  {
    var t :- NewFromPField(c);
    var u := InitFromTimespec(t, sec, nsec, scale);
    if u.outcome.Failure? then Err(u.outcome.error) else Ok(u.time)
  }

  /** A value made from a time stamp has the requested format, holds the
      seconds exactly and the fine-time count modulo its width. */
  lemma NewFromTimespecValue(c: Byte, sec: int, nsec: int, scale: (nat, nat) -> nat)
    requires NewFromTimespec(c, sec, nsec, scale).Ok?
    ensures var t := NewFromTimespec(c, sec, nsec, scale).value;
      GetPField(t) == c && ToSec(t.coarse) == sec &&
      (FineWidth(t.fine) > 0 ==> BE(FineBytes(t.fine)) == scale(FineWidth(t.fine), nsec) % Pow256(FineWidth(t.fine)))
  {
    InitFromSecToSec(sec);
  }
}
