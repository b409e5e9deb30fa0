/** HF/VHF frames (src/hfvhf.rs): frequency, modulation and 16-bit little-endian PCM samples. */
module HfVhf {
  import opened Bytes

  type i16 = x: int | -0x8000 <= x < 0x8000
  type u32 = x: int | 0 <= x < 0x1_0000_0000

  datatype Modulation = AM | FM | SSB | CW

  datatype Audio = Audio(frequencyKhz: u32, modulation: Modulation, samples: seq<i16>)

  function ModulationOf(b: byte): Option<Modulation> {
    match b
    case 0 => Some(AM)
    case 1 => Some(FM)
    case 2 => Some(SSB)
    case 3 => Some(CW)
    case _ => None
  }

  function ModulationByte(m: Modulation): byte {
    match m
    case AM => 0
    case FM => 1
    case SSB => 2
    case CW => 3
  }

  function Sample(lo: byte, hi: byte): i16 {
    var u := 256 * hi + lo;
    if u < 0x8000 then u else u - 0x1_0000
  }

  function SampleLow(x: i16): byte {
    (if x < 0 then x + 0x1_0000 else x) % 256
  }

  function SampleHigh(x: i16): byte {
    (if x < 0 then x + 0x1_0000 else x) / 256
  }

  function Samples(pcm: seq<byte>): seq<i16> {
    seq(|pcm| / 2, i requires 0 <= i < |pcm| / 2 => Sample(pcm[2 * i], pcm[2 * i + 1]))
  }

  function Pcm(samples: seq<i16>): seq<byte> {
    seq(2 * |samples|, j requires 0 <= j < 2 * |samples| =>
      if j % 2 == 0 then SampleLow(samples[j / 2]) else SampleHigh(samples[j / 2]))
  }

  lemma FourBytes(data: seq<byte>)
    requires |data| == 4
    ensures 0 <= FromBe(data) < 0x1_0000_0000
  {
    RadixOfEight();
  }

  function Decoded(data: seq<byte>): Option<Audio> {
    if |data| < 8 then None
    else
      match ModulationOf(data[4])
      case None => None
      case Some(m) => FourBytes(data[..4]); Some(Audio(FromBe(data[..4]), m, Samples(data[5..])))
  }

  function Encoded(a: Audio): seq<byte> {
    ToBe(4, a.frequencyKhz) + [ModulationByte(a.modulation)] + Pcm(a.samples)
  }

  method Parse(data: seq<byte>) returns (r: Option<Audio>)
    ensures r == Decoded(data)
  {
    if |data| < 8 {
      return None;
    }
    var m := ModulationOf(data[4]);
    if m.None? {
      return None;
    }
    var samples: seq<i16> := [];
    var i := 5;
    while i < |data|
      invariant i == 5 + 2 * |samples| || (i == |data| && i == 6 + 2 * |samples|)
      invariant i <= |data|
      invariant |samples| <= |data[5..]| / 2 && samples == Samples(data[5..])[..|samples|]
    {
      if i + 1 < |data| {
        samples := samples + [Sample(data[i], data[i + 1])];
        i := i + 2;
      } else {
        i := i + 1;
      }
    }
    assert |samples| == |data[5..]| / 2;
    assert samples == Samples(data[5..]);
    FourBytes(data[..4]);
    r := Some(Audio(FromBe(data[..4]), m.value, samples));
  }

  method Encode(a: Audio) returns (out: seq<byte>)
    ensures out == Encoded(a)
  {
    hide Pcm, SampleLow, SampleHigh, ToBe;
    PcmSize(a.samples);
    var buffer := new byte[5 + 2 * |a.samples|](_ => 0);
    var f := ToBe(4, a.frequencyKhz);
    buffer[0], buffer[1], buffer[2], buffer[3] := f[0], f[1], f[2], f[3];
    buffer[4] := ModulationByte(a.modulation);
    for i := 0 to |a.samples|
      invariant buffer[..4] == f && buffer[4] == ModulationByte(a.modulation)
      invariant forall j :: 0 <= j < 2 * i ==> buffer[5 + j] == Pcm(a.samples)[j]
    {
      PcmAt(a.samples, i);
      buffer[5 + 2 * i] := SampleLow(a.samples[i]);
      buffer[5 + 2 * i + 1] := SampleHigh(a.samples[i]);
    }
    out := buffer[..];
    assert out == f + [ModulationByte(a.modulation)] + out[5..];
    assert out[5..] == Pcm(a.samples);
  }

  /** What is accepted, and what is read from it: a big-endian frequency, a modulation code and little-endian samples in
      two's complement. */
  lemma FieldsRead(data: seq<byte>)
    ensures Decoded(data).Some? <==> |data| >= 8 && data[4] <= 3
    ensures Decoded(data).Some? ==>
      var a := Decoded(data).value;
      && a.frequencyKhz
         == 0x100_0000 * data[0] as int + 0x1_0000 * data[1] as int + 0x100 * data[2] as int + data[3]
      && a.modulation == [AM, FM, SSB, CW][data[4]]
      && |a.samples| == (|data| - 5) / 2
      && forall i :: 0 <= i < |a.samples| ==>
           var u := data[5 + 2 * i] as int + 256 * data[6 + 2 * i] as int;
           a.samples[i] == if u < 0x8000 then u else u - 0x1_0000
  {
    if |data| >= 8 {
      FourDigits(data[..4]);
    }
  }

  lemma SampleRoundTrip(x: i16)
    ensures Sample(SampleLow(x), SampleHigh(x)) == x
  {
  }

  lemma BytesRoundTrip(lo: byte, hi: byte)
    ensures SampleLow(Sample(lo, hi)) == lo && SampleHigh(Sample(lo, hi)) == hi
  {
  }

  lemma PcmSize(samples: seq<i16>)
    ensures |Pcm(samples)| == 2 * |samples|
  {
  }

  lemma PcmAt(samples: seq<i16>, i: nat)
    requires i < |samples|
    ensures Pcm(samples)[2 * i] == SampleLow(samples[i]) && Pcm(samples)[2 * i + 1] == SampleHigh(samples[i])
  {
    hide SampleLow, SampleHigh;
  }

  lemma SamplesOfPcm(samples: seq<i16>)
    ensures Samples(Pcm(samples)) == samples
  {
    hide Pcm, Sample, SampleLow, SampleHigh;
    PcmSize(samples);
    forall i | 0 <= i < |samples|
      ensures Samples(Pcm(samples))[i] == samples[i]
    {
      PcmAt(samples, i);
      SampleRoundTrip(samples[i]);
    }
  }

  lemma PcmOfSamples(pcm: seq<byte>)
    ensures Pcm(Samples(pcm)) == pcm[..2 * (|pcm| / 2)]
  {
    forall j | 0 <= j < 2 * (|pcm| / 2)
      ensures Pcm(Samples(pcm))[j] == pcm[j]
    {
      BytesRoundTrip(pcm[2 * (j / 2)], pcm[2 * (j / 2) + 1]);
    }
  }

  /** Parsing what was encoded gives the message back exactly when it has at least two samples. */
  lemma ParseEncode(a: Audio)
    ensures Decoded(Encoded(a)) == Some(a) <==> |a.samples| >= 2
  {
    if |a.samples| >= 2 {
      var e := Encoded(a);
      assert e[..4] == ToBe(4, a.frequencyKhz) && e[5..] == Pcm(a.samples);
      RadixOfEight();
      FromToBe(4, a.frequencyKhz);
      SamplesOfPcm(a.samples);
    }
  }

  /** Translating an accepted frame keeps all of it but at most one odd trailing byte. */
  lemma EncodeParse(data: seq<byte>)
    requires Decoded(data).Some?
    ensures Encoded(Decoded(data).value) == data[..5 + 2 * ((|data| - 5) / 2)]
    ensures Encoded(Decoded(data).value) == data <==> |data| % 2 == 1
  {
    hide ToBe, FromBe, Pcm, Samples;
    ToFromBe(data[..4]);
    PcmOfSamples(data[5..]);
    ModulationRoundTrip(data[4]);
    FrameParts(data, 5 + 2 * ((|data| - 5) / 2));
  }

  lemma ModulationRoundTrip(b: byte)
    ensures ModulationOf(b).Some? ==> ModulationByte(ModulationOf(b).value) == b
  {
  }

  lemma FrameParts(data: seq<byte>, n: nat)
    requires 5 <= n <= |data| <= n + 1
    ensures data[..n] == data[..4] + [data[4]] + data[5..][..n - 5]
    ensures data[..n] == data <==> n == |data|
  {
    assert |data[..n]| == n;
    assert n == |data| ==> data[..n] == data;
  }
}
