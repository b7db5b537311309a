/** Settings blobs: a schema header, a body that may be shorter or longer than the
    running structure, and the headerless layout of protocol v3. A structure is
    its packed little-endian image. */
module ConfigMigrate {
  import opened SmartTag
  import AppConfig

  newtype Byte = b: int | 0 <= b < 0x100

  type Image = seq<Byte>

  const SCHEMA: nat := 1
  const HEADER_SIZE: nat := 4
  const CONFIG_SIZE: nat := 40
  const STATS_SIZE: nat := 42
  const V0_SIZE: nat := 40

  datatype Result = Ok | Invalid

  // ---- Words and fields ----

  function Le(n: nat, width: nat): (s: Image)
    ensures |s| == width
    decreases width
  {
    if width == 0 then [] else [(n % 0x100) as Byte] + Le(n / 0x100, width - 1)
  }

  function Value(s: Image): nat {
    if s == [] then 0 else s[0] as nat + 0x100 * Value(s[1..])
  }

  lemma ValueOfTwo(s: Image)
    requires |s| == 2
    ensures Value(s) == s[0] as nat + 0x100 * s[1] as nat
  {
    assert s[1..][1..] == [];
    assert Value(s[1..]) == s[1] as nat;
  }

  lemma ValueOfLe(n: nat)
    requires n < 0x1_0000
    ensures Value(Le(n, 2)) == n
  {
    assert Le(n / 0x100, 1) == [(n / 0x100) as Byte];
    ValueOfTwo(Le(n, 2));
  }

  datatype Field = Field(offset: nat, width: nat)

  function Get(image: Image, f: Field): nat
    requires f.offset + f.width <= |image|
  {
    Value(image[f.offset..f.offset + f.width])
  }

  /** The fields of tag_config_t, in order. */
  const CONFIG_FIELDS: seq<Field> := [
    Field(0, 2), Field(2, 2), Field(4, 2), Field(6, 2), Field(8, 2), Field(10, 2), Field(12, 2), Field(14, 2),
        Field(16, 2),
    Field(18, 2), Field(20, 2), Field(22, 2), Field(24, 2), Field(26, 2), Field(28, 4), Field(32, 4),
    Field(36, 1), Field(37, 1), Field(38, 1), Field(39, 1)]

  /** The twelve counters of tag_statistics_t, which protocol v3 had at the same
      places, and the boot epoch, which it did not have. */
  const COUNTERS: seq<Field> := [
    Field(0, 4), Field(4, 4), Field(8, 4), Field(12, 4), Field(16, 4), Field(20, 4), Field(24, 4),
    Field(28, 2), Field(30, 2), Field(32, 2), Field(34, 2), Field(36, 2)]

  const BOOT_EPOCH: Field := Field(38, 4)

  /** The values of these fields; a negative one is stored modulo 2^16. */
  function Values(c: Config): (values: seq<nat>)
    ensures |values| == |CONFIG_FIELDS|
  {
    [c.samplingInterval, c.motionTimeout, c.motionThreshold, c.shockThreshold, c.freeFallThreshold,
     Word(c.tempHigh), Word(c.tempLow), c.humidityHigh, c.batteryLow, c.tempDelta, c.humidityDelta, c.pressureDelta,
     c.maxInterval, c.serviceWindow, c.gasLow, c.gasDelta, c.operatingMode, c.ledEnabled, c.historyEnabled, 0]
  }

  function Word(x: int): nat {
    x % 0x1_0000
  }

  function Integer(word: nat): int {
    if word < 0x8000 then word else word - 0x1_0000
  }

  /** Where the k-th field starts; they follow each other without a hole. */
  function FieldStart(k: nat): nat
    requires k <= |CONFIG_FIELDS|
  {
    if k == |CONFIG_FIELDS| then CONFIG_SIZE else CONFIG_FIELDS[k].offset
  }

  lemma FieldsContiguous(k: nat)
    requires k < |CONFIG_FIELDS|
    ensures CONFIG_FIELDS[k].offset == FieldStart(k) && FieldStart(0) == 0
    ensures FieldStart(k) + CONFIG_FIELDS[k].width == FieldStart(k + 1) <= CONFIG_SIZE
  {
  }

  /** The first n fields, one after the other. */
  function Pack(values: seq<nat>, n: nat): (image: Image)
    requires n <= |values| == |CONFIG_FIELDS|
    ensures |image| == FieldStart(n)
  {
    if n == 0 then []
    else
      FieldsContiguous(n - 1);
      Pack(values, n - 1) + Le(values[n - 1], CONFIG_FIELDS[n - 1].width)
  }

  function PackConfig(c: Config): (image: Image)
    ensures |image| == CONFIG_SIZE
  {
    Pack(Values(c), |CONFIG_FIELDS|)
  }

  /** What the running code sees in an image. */
  function Unpack(image: Image): Config
    requires |image| == CONFIG_SIZE
  {
    var v := seq(|CONFIG_FIELDS|, k requires 0 <= k < |CONFIG_FIELDS| =>
        FieldsContiguous(k);
        Get(image, CONFIG_FIELDS[k]));
    Config(v[0], v[1], v[2], v[3], v[4], Integer(v[5]), Integer(v[6]), v[7], v[8], v[9], v[10], v[11], v[12], v[13],
           v[14], v[15], v[16], v[17], v[18])
  }

  /** TAG_CONFIG_DEFAULTS, as an image. */
  function ConfigDefaults(): (image: Image)
    ensures |image| == CONFIG_SIZE
  {
    PackConfig(AppConfig.DEFAULTS)
  }

  function Zeros(n: nat): (image: Image)
    ensures |image| == n && forall i :: 0 <= i < n ==> image[i] == 0
  {
    seq(n, _ => 0 as Byte)
  }

  // ---- Blobs ----

  function Framed(schema: nat, body: Image): (blob: Image)
    ensures |blob| == HEADER_SIZE + |body|
  {
    Le(schema, 2) + Le(|body|, 2) + body
  }

  /** The body over the defaults. */
  function Overlay(body: Image, defaults: Image): (image: Image)
    ensures |image| == |defaults|
  {
    if |body| <= |defaults| then body + defaults[|body|..] else body[..|defaults|]
  }

  function DecodeFramed(blob: Image, defaults: Image): Option<Image> {
    if |blob| < HEADER_SIZE then None
    else
      var schema, size := Value(blob[..2]), Value(blob[2..4]);
      if schema == 0 || schema > SCHEMA || HEADER_SIZE + size > |blob| then None
      else Some(Overlay(blob[HEADER_SIZE..HEADER_SIZE + size], defaults))
  }

  function DecodeConfig(blob: Image): (r: Option<Image>)
    ensures r.Some? ==> |r.value| == CONFIG_SIZE
  {
    if |blob| == V0_SIZE then Some(Overlay(blob, ConfigDefaults())) else DecodeFramed(blob, ConfigDefaults())
  }

  function DecodeStats(blob: Image): (r: Option<Image>)
    ensures r.Some? ==> |r.value| == STATS_SIZE
  {
    if |blob| == V0_SIZE then Some(blob[..BOOT_EPOCH.offset] + Zeros(BOOT_EPOCH.width))
        else DecodeFramed(blob, Zeros(STATS_SIZE))
  }

  // ---- The code, on caller buffers ----

  method CopyBytes(dst: array<Byte>, at: nat, src: array<Byte>, from: nat, n: nat)
    requires dst != src && at + n <= dst.Length && from + n <= src.Length
    modifies dst
    ensures dst[..] == old(dst[..at]) + src[from..from + n] + old(dst[at + n..])
  {
    for i := 0 to n
      invariant forall k :: 0 <= k < dst.Length ==>
        dst[k] == if at <= k < at + i then src[from + k - at] else old(dst[k])
    {
      dst[at + i] := src[from + i];
    }
  }

  /** Writes header and body into the caller's buffer; returns 0 if it is missing or
      too small, and the blob's size otherwise. */
  method Encode(schema: nat, body: array<Byte>, blob: array?<Byte>, max: nat) returns (n: nat)
    requires body.Length < 0x1_0000 && blob != body && (blob != null ==> max <= blob.Length)
    modifies blob
    ensures n == if blob == null || max < HEADER_SIZE + body.Length then 0 else HEADER_SIZE + body.Length
    ensures n > 0 ==> blob[..n] == Framed(schema, body[..]) && blob[n..] == old(blob[n..])
    ensures n == 0 && blob != null ==> blob[..] == old(blob[..])
  {
    if blob == null || max < HEADER_SIZE + body.Length {
      return 0;
    }
    var header := Le(schema, 2) + Le(body.Length, 2);
    blob[0], blob[1], blob[2], blob[3] := header[0], header[1], header[2], header[3];
    assert blob[..4] == header;
    CopyBytes(blob, HEADER_SIZE, body, 0, body.Length);
    return HEADER_SIZE + body.Length;
  }

  /** tag_config_encode() and, by its size, tag_stats_encode(). */
  method EncodeSettings(settings: array?<Byte>, blob: array?<Byte>, max: nat) returns (n: nat)
    requires settings != null ==> settings.Length < 0x1_0000 && blob != settings
    requires blob != null ==> max <= blob.Length
    modifies blob
    ensures n == if settings == null || blob == null || max < HEADER_SIZE + settings.Length then 0
        else HEADER_SIZE + settings.Length
    ensures n > 0 ==> blob[..n] == Framed(SCHEMA, settings[..]) && blob[n..] == old(blob[n..])
    ensures n == 0 && blob != null ==> blob[..] == old(blob[..])
  {
    if settings == null {
      return 0;
    }
    n := Encode(SCHEMA, settings, blob, max);
  }

  /** copy_onto_defaults(), with the body a stretch of the blob. */
  method CopyOntoDefaults(out: array<Byte>, blob: array<Byte>, from: nat, size: nat, defaults: array<Byte>)
    requires out != blob && out != defaults && out.Length == defaults.Length && from + size <= blob.Length
    modifies out
    ensures out[..] == Overlay(blob[from..from + size], old(defaults[..]))
  {
    CopyBytes(out, 0, defaults, 0, out.Length);
    CopyBytes(out, 0, blob, from, Min(size, out.Length));
  }

  method ReadWord(blob: array<Byte>, at: nat) returns (w: nat)
    requires at + 2 <= blob.Length
    ensures w == Value(blob[at..at + 2])
  {
    ghost var word := blob[at..at + 2];
    assert word == [blob[at], blob[at + 1]];
    ValueOfTwo(word);
    return blob[at] as nat + 0x100 * blob[at + 1] as nat;
  }

  /** The framed part of both decoders. No index is ever past `len`. */
  method DecodeBody(blob: array<Byte>, len: nat, out: array<Byte>, defaults: array<Byte>) returns (result: Result)
    requires len <= blob.Length && out != blob && out != defaults && out.Length == defaults.Length
    modifies out
    ensures match DecodeFramed(blob[..len], old(defaults[..]))
            case None => result == Invalid && out[..] == old(out[..])
            case Some(image) => result == Ok && out[..] == image
  {
    hide Value, Overlay;
    if len < HEADER_SIZE {
      return Invalid;
    }
    var schema := ReadWord(blob, 0);
    var size := ReadWord(blob, 2);
    assert blob[..len][..2] == blob[0..2] && blob[..len][2..4] == blob[2..4];
    if schema == 0 || schema > SCHEMA || HEADER_SIZE + size > len {
      return Invalid;
    }
    assert blob[..len][HEADER_SIZE..HEADER_SIZE + size] == blob[HEADER_SIZE..HEADER_SIZE + size];
    CopyOntoDefaults(out, blob, HEADER_SIZE, size, defaults);
    return Ok;
  }

  method TagConfigDecode(blob: array?<Byte>, len: nat, out: array?<Byte>) returns (result: Result)
    requires blob != null ==> len <= blob.Length && out != blob
    requires out != null ==> out.Length == CONFIG_SIZE
    modifies out
    ensures blob == null || out == null || len == 0 ==> result == Invalid && (out != null ==> out[..] == old(out[..]))
    ensures blob != null && out != null && len > 0 ==>
      match DecodeConfig(blob[..len])
      case None => result == Invalid && out[..] == old(out[..])
      case Some(image) => result == Ok && out[..] == image
  {
    hide ConfigDefaults, DecodeFramed;
    if out == null || blob == null || len == 0 {
      return Invalid;
    }
    var image := ConfigDefaults();
    var defaults := new Byte[CONFIG_SIZE](i requires 0 <= i < CONFIG_SIZE => image[i]);
    assert defaults[..] == image;
    if len == V0_SIZE {
      CopyOntoDefaults(out, blob, 0, len, defaults);
      return Ok;
    }
    result := DecodeBody(blob, len, out, defaults);
  }

  /** Where the k-th counter starts; they follow each other without a hole. */
  function CounterStart(k: nat): nat
    requires k <= |COUNTERS|
  {
    if k == |COUNTERS| then BOOT_EPOCH.offset else COUNTERS[k].offset
  }

  lemma CountersContiguous(k: nat)
    requires k < |COUNTERS|
    ensures COUNTERS[k].offset == CounterStart(k) && CounterStart(0) == 0
    ensures CounterStart(k) + COUNTERS[k].width == CounterStart(k + 1) <= BOOT_EPOCH.offset
  {
  }

  lemma ExtendByOneCounter(image: Image, blob: Image, low: nat, high: nat)
    requires low <= high <= |blob| && high <= |image| && image == blob[..low] + Zeros(|image| - low)
    ensures image[..low] + blob[low..high] + image[high..] == blob[..high] + Zeros(|image| - high)
  {
  }

  /** Assigns the counters one by one. */
  method CopyCounters(out: array<Byte>, blob: array<Byte>)
    requires out != blob && out.Length == STATS_SIZE && out[..] == Zeros(STATS_SIZE) && V0_SIZE <= blob.Length
    modifies out
    ensures out[..] == blob[..BOOT_EPOCH.offset] + Zeros(BOOT_EPOCH.width)
  {
    hide CounterStart;
    CountersContiguous(0);
    for i := 0 to |COUNTERS|
      invariant CounterStart(i) <= BOOT_EPOCH.offset
      invariant out[..] == blob[..CounterStart(i)] + Zeros(STATS_SIZE - CounterStart(i))
    {
      CountersContiguous(i);
      ExtendByOneCounter(out[..], blob[..], CounterStart(i), CounterStart(i + 1));
      CopyBytes(out, COUNTERS[i].offset, blob, COUNTERS[i].offset, COUNTERS[i].width);
    }
    CountersEnd();
  }

  lemma CountersEnd()
    ensures CounterStart(|COUNTERS|) == BOOT_EPOCH.offset
  {
  }

  method TagStatsDecode(blob: array?<Byte>, len: nat, out: array?<Byte>) returns (result: Result)
    requires blob != null ==> len <= blob.Length && out != blob
    requires out != null ==> out.Length == STATS_SIZE
    modifies out
    ensures blob == null || out == null || len == 0 ==> result == Invalid && (out != null ==> out[..] == old(out[..]))
    ensures blob != null && out != null && len > 0 ==>
      match DecodeStats(blob[..len])
      case None => result == Invalid && out[..] == old(out[..])
      case Some(image) => result == Ok && out[..] == image
  {
    if out == null || blob == null || len == 0 {
      return Invalid;
    }
    var defaults := new Byte[STATS_SIZE](_ => 0 as Byte);
    assert defaults[..] == Zeros(STATS_SIZE);
    if len == V0_SIZE {
      CopyBytes(out, 0, defaults, 0, STATS_SIZE);
      CopyCounters(out, blob);
      return Ok;
    }
    result := DecodeBody(blob, len, out, defaults);
  }

  // ---- What is refused, and what is read ----

  function Schema(blob: Image): nat
    requires |blob| >= 4
  {
    blob[0] as nat + 256 * blob[1] as nat
  }

  function BodySize(blob: Image): nat
    requires |blob| >= 4
  {
    blob[2] as nat + 256 * blob[3] as nat
  }

  /** A header and, behind it, all of the body that it announces, of a schema that
      this firmware knows. */
  predicate WellFramed(blob: Image) {
    |blob| >= 4 && Schema(blob) == 1 && 4 + BodySize(blob) <= |blob|
  }

  lemma HeaderWords(blob: Image)
    requires |blob| >= 4
    ensures Value(blob[..2]) == Schema(blob) && Value(blob[2..4]) == BodySize(blob)
  {
    ValueOfTwo(blob[..2]);
    ValueOfTwo(blob[2..4]);
  }

  /** Which blobs are refused: all but those of 40 bytes and the well-framed ones.
      A blob cut short, of schema 0 or of a newer schema is never half-applied. */
  lemma RefusedExactly(blob: Image)
    ensures DecodeConfig(blob) == None <==> |blob| != 40 && !WellFramed(blob)
    ensures DecodeStats(blob) == None <==> |blob| != 40 && !WellFramed(blob)
  {
    hide Value, Overlay, ConfigDefaults;
    if |blob| >= 4 {
      HeaderWords(blob);
    }
  }

  /** Every byte that is read back from a well-framed blob: those of the body as far
      as it goes, behind a header of four bytes, and the defaults from there on. */
  lemma ReadBytewise(blob: Image, k: nat)
    requires WellFramed(blob) && |blob| != 40
    ensures var config := DecodeConfig(blob);
      config.Some? && (k < 40 ==>
        config.value[k] == if k < BodySize(blob) then blob[4 + k] else ConfigDefaults()[k])
    ensures var stats := DecodeStats(blob);
      stats.Some? && (k < 42 ==> stats.value[k] == if k < BodySize(blob) then blob[4 + k] else 0)
  {
    hide Value, ConfigDefaults;
    HeaderWords(blob);
  }

  // ---- What migration preserves ----

  /** Reading back what was written. */
  lemma FramedRoundTrip(body: Image, trailing: Image, defaults: Image)
    requires |body| < 0x1_0000
    ensures DecodeFramed(Framed(SCHEMA, body) + trailing, defaults) == Some(Overlay(body, defaults))
  {
    var blob := Framed(SCHEMA, body) + trailing;
    assert blob[..2] == Le(SCHEMA, 2) && blob[2..4] == Le(|body|, 2);
    assert blob[HEADER_SIZE..HEADER_SIZE + |body|] == body;
    ValueOfLe(SCHEMA);
    ValueOfLe(|body|);
  }

  lemma PackLast(values: seq<nat>, n: nat)
    requires 0 < n <= |values| == |CONFIG_FIELDS|
    ensures FieldStart(n - 1) <= FieldStart(n)
    ensures Pack(values, n)[..FieldStart(n - 1)] == Pack(values, n - 1)
    ensures Pack(values, n)[FieldStart(n - 1)..] == Le(values[n - 1], CONFIG_FIELDS[n - 1].width)
  {
    hide FieldStart, Le;
    FieldsContiguous(n - 1);
  }

  lemma {:induction false} PackedAt(values: seq<nat>, n: nat, k: nat)
    requires k < n <= |values| == |CONFIG_FIELDS|
    ensures FieldStart(k) <= FieldStart(k + 1) <= FieldStart(n)
    ensures Pack(values, n)[FieldStart(k)..FieldStart(k + 1)] == Le(values[k], CONFIG_FIELDS[k].width)
  {
    hide FieldStart, Le, Pack;
    FieldsContiguous(k);
    PackLast(values, n);
    if k < n - 1 {
      PackedAt(values, n - 1, k);
      Within(Pack(values, n), FieldStart(n - 1), FieldStart(k), FieldStart(k + 1));
    } else {
      assert Pack(values, n)[FieldStart(k)..FieldStart(k + 1)] == Pack(values, n)[FieldStart(k)..];
    }
  }

  lemma Within(image: Image, n: nat, low: nat, high: nat)
    requires low <= high <= n <= |image|
    ensures image[low..high] == image[..n][low..high]
  {
  }

  function Capacity(width: nat): nat {
    if width == 0 then 1 else 0x100 * Capacity(width - 1)
  }

  lemma {:induction false} ValueOfField(n: nat, width: nat)
    requires n < Capacity(width)
    ensures Value(Le(n, width)) == n
  {
    if width > 0 {
      ValueOfField(n / 0x100, width - 1);
      assert Le(n, width)[1..] == Le(n / 0x100, width - 1);
    }
  }

  /** Every field of a configuration fits its place. */
  predicate Storable(c: Config) {
    && (forall k :: 0 <= k < |CONFIG_FIELDS| ==> Values(c)[k] < Capacity(CONFIG_FIELDS[k].width))
    && -0x8000 <= c.tempHigh < 0x8000 && -0x8000 <= c.tempLow < 0x8000
  }

  lemma PackUnpack(c: Config)
    requires Storable(c)
    ensures Unpack(PackConfig(c)) == c
  {
    hide Pack, Le, Value, Capacity;
    var image, values := PackConfig(c), Values(c);
    forall k | 0 <= k < |CONFIG_FIELDS|
      ensures CONFIG_FIELDS[k].offset + CONFIG_FIELDS[k].width <= |image| && Get(image, CONFIG_FIELDS[k]) == values[k]
    {
      FieldsContiguous(k);
      PackedAt(values, |CONFIG_FIELDS|, k);
      ValueOfField(values[k], CONFIG_FIELDS[k].width);
    }
  }

  /** Storing a configuration and loading it gives back every field, negative limits
      too, and what a tag without a stored one loads is its defaults. */
  lemma ConfigRoundTrip(c: Config, trailing: Image)
    requires Storable(c)
    ensures var r := DecodeConfig(Framed(SCHEMA, PackConfig(c)) + trailing); r.Some? && Unpack(r.value) == c
    ensures Unpack(ConfigDefaults()) == AppConfig.DEFAULTS
  {
    hide PackConfig, Unpack, Storable, Framed, DecodeFramed;
    FramedRoundTrip(PackConfig(c), trailing, ConfigDefaults());
    OverlayFull(PackConfig(c), ConfigDefaults());
    PackUnpack(c);
    DefaultsUnpack();
  }

  lemma DefaultsUnpack()
    ensures Unpack(ConfigDefaults()) == AppConfig.DEFAULTS
  {
    hide Unpack, PackConfig;
    DefaultsStorable();
    PackUnpack(AppConfig.DEFAULTS);
  }

  lemma DefaultsStorable()
    ensures Storable(AppConfig.DEFAULTS)
  {
    assert Capacity(1) == 0x100 && Capacity(2) == 0x1_0000 && Capacity(4) == 0x1_0000_0000;
    hide Capacity;
  }

  lemma OverlayFull(body: Image, defaults: Image)
    requires |body| == |defaults|
    ensures Overlay(body, defaults) == body
  {
  }

  /** decode(encode(c)) == c for every configuration and every statistics value. */
  lemma RoundTrip(config: Image, stats: Image)
    requires |config| == CONFIG_SIZE && |stats| == STATS_SIZE
    ensures DecodeConfig(Framed(SCHEMA, config)) == Some(config)
    ensures DecodeStats(Framed(SCHEMA, stats)) == Some(stats)
  {
    hide DecodeFramed, Framed;
    assert Framed(SCHEMA, config) + [] == Framed(SCHEMA, config) && Framed(SCHEMA, stats) + [] == Framed(SCHEMA, stats);
    FramedRoundTrip(config, [], ConfigDefaults());
    FramedRoundTrip(stats, [], Zeros(STATS_SIZE));
    OverlayFull(config, ConfigDefaults());
    OverlayFull(stats, Zeros(STATS_SIZE));
  }

  /** A field wholly stored keeps its value, one wholly missing takes its default. */
  ghost predicate Migrated(image: Image, body: Image, defaults: Image)
    requires |image| == |defaults|
  {
    forall f: Field :: f.offset + f.width <= |defaults| ==>
      && (f.offset + f.width <= |body| ==> Get(image, f) == Get(body, f))
      && (|body| <= f.offset ==> Get(image, f) == Get(defaults, f))
  }

  lemma OverlayMigrates(body: Image, defaults: Image)
    ensures Migrated(Overlay(body, defaults), body, defaults)
  {
    var image := Overlay(body, defaults);
    forall f: Field | f.offset + f.width <= |defaults|
      ensures f.offset + f.width <= |body| ==> Get(image, f) == Get(body, f)
      ensures |body| <= f.offset ==> Get(image, f) == Get(defaults, f)
    {
      var low, high := f.offset, f.offset + f.width;
      if high <= |body| {
        assert image[low..high] == body[low..high];
      } else if |body| <= low {
        assert image[low..high] == defaults[low..high];
      }
    }
  }

  /** Migration preserves meaning: a body of any length with anything after it,
      unless the blob is 40 bytes long, decodes field by field. */
  lemma MigrationKeepsFields(body: Image, trailing: Image)
    requires |body| < 0x1_0000 && HEADER_SIZE + |body| + |trailing| != V0_SIZE
    ensures var config := DecodeConfig(Framed(SCHEMA, body) + trailing);
      config.Some? && Migrated(config.value, body, ConfigDefaults())
    ensures var stats := DecodeStats(Framed(SCHEMA, body) + trailing);
      stats.Some? && Migrated(stats.value, body, Zeros(STATS_SIZE))
  {
    hide DecodeFramed, Framed, Overlay, Migrated, ConfigDefaults;
    FramedRoundTrip(body, trailing, ConfigDefaults());
    FramedRoundTrip(body, trailing, Zeros(STATS_SIZE));
    OverlayMigrates(body, ConfigDefaults());
    OverlayMigrates(body, Zeros(STATS_SIZE));
  }

  ghost predicate Repeating(blob: Image, bound: nat) {
    bound + 4 <= |blob| && forall i :: 0 <= i < bound ==> blob[i] == blob[i + 4]
  }

  /** Bytes that repeat every four up to `bound` repeat the first one there. */
  lemma {:induction false} FirstRepeats(blob: Image, bound: nat, k: nat)
    requires Repeating(blob, bound) && 4 * k < bound + 4
    ensures blob[4 * k] == blob[0]
  {
    if k > 0 {
      FirstRepeats(blob, bound, k - 1);
      assert blob[4 * (k - 1)] == blob[4 * (k - 1) + 4];
    }
  }

  /** A decoded 40-byte blob that agreed with what its own body makes of the
      defaults would repeat its header every four bytes, up to a default byte. */
  lemma AgreementRepeats(body: Image, trailing: Image, defaults: Image, image: Image) returns (k: nat)
    requires HEADER_SIZE + |body| + |trailing| == V0_SIZE <= |defaults| == |image|
    requires image[..BOOT_EPOCH.offset] == (Framed(SCHEMA, body) + trailing)[..BOOT_EPOCH.offset]
    requires image == Overlay(body, defaults)
    ensures 4 * k < BOOT_EPOCH.offset && defaults[4 * k] == 1
  {
    var blob := Framed(SCHEMA, body) + trailing;
    assert blob[0] == 1;
    hide Framed;
    forall i | 0 <= i < |body| ensures blob[i] == blob[i + 4] {
      assert image[..BOOT_EPOCH.offset][i] == blob[..BOOT_EPOCH.offset][i];
    }
    k := (|body| + 3) / 4;
    FirstRepeats(blob, |body|, k);
    assert image[..BOOT_EPOCH.offset][4 * k] == blob[..BOOT_EPOCH.offset][4 * k];
  }

  lemma DefaultsAtWords(k: nat)
    requires 4 * k < BOOT_EPOCH.offset
    ensures ConfigDefaults()[4 * k] != 1
  {
    hide Pack, Le;
    var values := Values(AppConfig.DEFAULTS);
    var n := if k < 8 then 2 * k else k + 7;
    assert CONFIG_FIELDS[n].offset == 4 * k;
    FieldsContiguous(n);
    PackedAt(values, |CONFIG_FIELDS|, n);
    FirstByte(values[n], CONFIG_FIELDS[n].width);
    assert ConfigDefaults()[4 * k] == ConfigDefaults()[4 * k..4 * k + CONFIG_FIELDS[n].width][0];
  }

  lemma FirstByte(n: nat, width: nat)
    requires width > 0
    ensures Le(n, width)[0] == (n % 0x100) as Byte
  {
  }

  /** A framed configuration is decoded as its body over the defaults if and only
      if the blob is not 40 bytes long: of that length it is taken for the
      headerless layout. */
  lemma FramedUnlessLegacyLength(body: Image, trailing: Image)
    requires |body| < 0x1_0000
    ensures DecodeConfig(Framed(SCHEMA, body) + trailing) == Some(Overlay(body, ConfigDefaults()))
       <==> HEADER_SIZE + |body| + |trailing| != V0_SIZE
  {
    var blob := Framed(SCHEMA, body) + trailing;
    if |blob| == V0_SIZE {
      OverlayFull(blob, ConfigDefaults());
      hide Framed, ConfigDefaults;
      if Overlay(body, ConfigDefaults()) == blob {
        var k := AgreementRepeats(body, trailing, ConfigDefaults(), blob);
        DefaultsAtWords(k);
      }
    } else {
      FramedRoundTrip(body, trailing, ConfigDefaults());
    }
  }

  /** The same for statistics. */
  lemma FramedStatsUnlessLegacyLength(body: Image, trailing: Image)
    requires |body| < 0x1_0000
    ensures DecodeStats(Framed(SCHEMA, body) + trailing) == Some(Overlay(body, Zeros(STATS_SIZE)))
       <==> HEADER_SIZE + |body| + |trailing| != V0_SIZE
  {
    var blob := Framed(SCHEMA, body) + trailing;
    if |blob| == V0_SIZE {
      hide Framed;
      var image := blob[..BOOT_EPOCH.offset] + Zeros(BOOT_EPOCH.width);
      assert image[..BOOT_EPOCH.offset] == blob[..BOOT_EPOCH.offset];
      if Overlay(body, Zeros(STATS_SIZE)) == image {
        var k := AgreementRepeats(body, trailing, Zeros(STATS_SIZE), image);
      }
    } else {
      FramedRoundTrip(body, trailing, Zeros(STATS_SIZE));
    }
  }

  /** For instance 36 bytes of configuration stored by an older firmware: the
      sampling interval of 90 s comes back as 1 s. */
  lemma ThirtySixByteBodyIsMisread(body: Image)
    requires |body| == 36 && Value(body[..2]) == 90
    ensures var r := DecodeConfig(Framed(SCHEMA, body)); r.Some? && Get(r.value, CONFIG_FIELDS[0]) == 1
  {
    var blob := Framed(SCHEMA, body);
    OverlayFull(blob, ConfigDefaults());
    assert blob[0..2] == Le(SCHEMA, 2);
    ValueOfLe(SCHEMA);
  }

  /** A headerless configuration of protocol v3 loads as it is. */
  lemma LegacyConfigLoads(blob: Image)
    requires |blob| == V0_SIZE
    ensures DecodeConfig(blob) == Some(blob)
  {
    OverlayFull(blob, ConfigDefaults());
  }

  /** Headerless statistics keep all twelve counters and get an unknown epoch,
      whatever their reserved bytes were. */
  lemma LegacyStatsKeepCounters(blob: Image)
    requires |blob| == V0_SIZE
    ensures var r := DecodeStats(blob);
      && r.Some?
      && (forall k :: 0 <= k < |COUNTERS| ==> Get(r.value, COUNTERS[k]) == Get(blob, COUNTERS[k]))
      && Get(r.value, BOOT_EPOCH) == 0
  {
    var image := DecodeStats(blob).value;
    forall k | 0 <= k < |COUNTERS| ensures Get(image, COUNTERS[k]) == Get(blob, COUNTERS[k]) {
      var f := COUNTERS[k];
      assert image[f.offset..f.offset + f.width] == blob[f.offset..f.offset + f.width];
    }
    assert image[38..42] == Zeros(4);
    ZerosValue(4);
  }

  lemma {:induction false} ZerosValue(n: nat)
    ensures Value(Zeros(n)) == 0
  {
    if n > 0 {
      assert Zeros(n)[1..] == Zeros(n - 1);
      ZerosValue(n - 1);
    }
  }
}
