/** The response frames of the SEN5x and the driver's decoders for them. A
    response is a run of triplets: a 16-bit word as two big-endian bytes, then
    the checksum byte of that word. */
module Frames {
  import opened Bits

  // ---------------------------------------------------------------------------
  // Triplet layout

  /** The frame a device sends for `words` with checksum bytes `crcs`. */
  function Frame(words: seq<u16>, crcs: seq<u8>): (r: seq<u8>)
    requires |crcs| == |words|
    decreases |words|
  {
    if words == [] then [] else ToBeBytes(words[0]) + [crcs[0]] + Frame(words[1..], crcs[1..])
  }

  /** The data words of a frame, one per triplet. */
  function DataWords(buf: seq<u8>): (r: seq<u16>)
    requires |buf| % 3 == 0
  {
    seq(|buf| / 3, i requires 0 <= i < |buf| / 3 => FromBeBytes(buf[3 * i], buf[3 * i + 1]))
  }

  /** The checksum bytes of a frame, one per triplet. */
  function CrcBytes(buf: seq<u8>): (r: seq<u8>)
    requires |buf| % 3 == 0
  {
    seq(|buf| / 3, i requires 0 <= i < |buf| / 3 => buf[3 * i + 2])
  }

  /** Triplet `i` of a frame holds word `i`, high byte first, then checksum `i`. */
  lemma {:induction false} FrameAt(words: seq<u16>, crcs: seq<u8>, i: nat)
    requires |crcs| == |words| && i < |words|
    ensures |Frame(words, crcs)| == 3 * |words|
    ensures Frame(words, crcs)[3 * i] == words[i] / 0x100
    ensures Frame(words, crcs)[3 * i + 1] == words[i] % 0x100
    ensures Frame(words, crcs)[3 * i + 2] == crcs[i]
  {
    if i == 0 {
      FrameLength(words[1..], crcs[1..]);
    } else {
      FrameAt(words[1..], crcs[1..], i - 1);
    }
  }

  lemma {:induction false} FrameLength(words: seq<u16>, crcs: seq<u8>)
    requires |crcs| == |words|
    ensures |Frame(words, crcs)| == 3 * |words|
  {
    if words != [] {
      FrameLength(words[1..], crcs[1..]);
    }
  }

  /** Framing the words and checksums of a frame rebuilds that same frame. */
  lemma FrameOfParts(buf: seq<u8>)
    requires |buf| % 3 == 0
    ensures Frame(DataWords(buf), CrcBytes(buf)) == buf
  {
    var words, crcs := DataWords(buf), CrcBytes(buf);
    FrameLength(words, crcs);
    forall k | 0 <= k < |buf|
      ensures Frame(words, crcs)[k] == buf[k]
    {
      FrameAt(words, crcs, k / 3);
    }
  }

  /** Reading the words out of a frame gives the words it was built from. */
  lemma WordsOfFrame(words: seq<u16>, crcs: seq<u8>)
    requires |crcs| == |words|
    ensures |Frame(words, crcs)| % 3 == 0
    ensures DataWords(Frame(words, crcs)) == words
    ensures CrcBytes(Frame(words, crcs)) == crcs
  {
    var buf := Frame(words, crcs);
    FrameLength(words, crcs);
    forall i | 0 <= i < |words|
      ensures DataWords(buf)[i] == words[i] && CrcBytes(buf)[i] == crcs[i]
    {
      FrameAt(words, crcs, i);
    }
  }

  // ---------------------------------------------------------------------------
  // Serial number: three triplets, 48 bits

  /** The six data bytes of a serial-number frame, most significant first,
      each shifted into place in a 64-bit word, OR-ed together. */
  function SerialBits(b0: u8, b1: u8, b3: u8, b4: u8, b6: u8, b7: u8): (r: nat)
  {
    Or(Or(Or(Or(Or(Shl64(b0, 40), Shl64(b1, 32)), Shl64(b3, 24)), Shl64(b4, 16)), Shl64(b6, 8)), b7)
  }

  /** The serial number sent in a 9-byte frame: a 48-bit number whose bytes are
      the data bytes, most significant first; checksum bytes 2, 5 and 8 take no
      part. */
  function SerialNumberOf(buf: seq<u8>): (r: u64)
    requires |buf| == 9
    ensures r == buf[0] as int * 0x100_0000_0000 + buf[1] as int * 0x1_0000_0000
      + buf[3] as int * 0x100_0000 + buf[4] as int * 0x1_0000 + buf[6] as int * 0x100 + buf[7] as int
    ensures r < 0x1_0000_0000_0000
  {
    SerialBitsValue(buf[0], buf[1], buf[3], buf[4], buf[6], buf[7]);
    SerialBits(buf[0], buf[1], buf[3], buf[4], buf[6], buf[7])
  }

  lemma Pow2Table()
    ensures Pow2(8) == 0x100 && Pow2(11) == 0x800 && Pow2(16) == 0x1_0000
    ensures Pow2(24) == 0x100_0000 && Pow2(32) == 0x1_0000_0000 && Pow2(40) == 0x100_0000_0000
  {
    assert Pow2(2) == 4;
    assert Pow2(4) == 16;
    assert Pow2(6) == 64;
    assert Pow2(8) == 0x100;
    assert Pow2(10) == 0x400;
    assert Pow2(11) == 0x800;
    Pow2Add(8, 8);
    Pow2Add(16, 8);
    Pow2Add(16, 16);
    Pow2Add(32, 8);
  }

  /** The shifted bytes occupy disjoint bit ranges, so OR-ing them is adding
      them: the result is the six bytes read as one big-endian number. */
  lemma SerialBitsValue(b0: u8, b1: u8, b3: u8, b4: u8, b6: u8, b7: u8)
    ensures SerialBits(b0, b1, b3, b4, b6, b7) == b0 as int * 0x100_0000_0000 + b1 as int * 0x1_0000_0000
      + b3 as int * 0x100_0000 + b4 as int * 0x1_0000 + b6 as int * 0x100 + b7 as int
  {
    Pow2Table();
    // a_k: the bytes taken so far, read as one big-endian number
    var a1: int := b0;
    var a2 := a1 * 0x100 + b1;
    var a3 := a2 * 0x100 + b3;
    var a4 := a3 * 0x100 + b4;
    var a5 := a4 * 0x100 + b6;
    var s1 := Or(Shl64(b0, 40), Shl64(b1, 32));
    assert s1 == a2 * 0x1_0000_0000 by {
      OrDisjoint(a1, 40, b1 as int * 0x1_0000_0000);
    }
    var s2 := Or(s1, Shl64(b3, 24));
    assert s2 == a3 * 0x100_0000 by {
      assert Shl64(b3, 24) == b3 * 0x100_0000;
      OrDisjoint(a2, 32, b3 * 0x100_0000);
    }
    var s3 := Or(s2, Shl64(b4, 16));
    assert s3 == a4 * 0x1_0000 by {
      assert Shl64(b4, 16) == b4 * 0x1_0000;
      OrDisjoint(a3, 24, b4 * 0x1_0000);
    }
    var s4 := Or(s3, Shl64(b6, 8));
    assert s4 == a5 * 0x100 by {
      assert Shl64(b6, 8) == b6 * 0x100;
      OrDisjoint(a4, 16, b6 * 0x100);
    }
    assert SerialBits(b0, b1, b3, b4, b6, b7) == a5 * 0x100 + b7 by {
      OrDisjoint(a5, 8, b7);
    }
  }

  /** The three words a 48-bit serial number is sent as. */
  function SerialWords(s: nat): (r: seq<u16>)
    requires s < 0x1_0000_0000_0000
  {
    [s / 0x1_0000_0000, (s / 0x1_0000) % 0x1_0000, s % 0x1_0000]
  }

  /** The serial number is its three words read as one big-endian number. */
  lemma SerialWordsValue(s: nat)
    requires s < 0x1_0000_0000_0000
    ensures s == SerialWords(s)[0] as int * 0x1_0000_0000 + SerialWords(s)[1] as int * 0x1_0000 + SerialWords(s)[2]
  {
    var q, t := s / 0x1_0000, s / 0x1_0000 / 0x1_0000;
    var w1, w2 := q % 0x1_0000, s % 0x1_0000;
    assert s == 0x1_0000 * q + w2;
    assert q == 0x1_0000 * t + w1;
    ModUnique(s, 0x1_0000_0000, t, 0x1_0000 * w1 + w2);
  }

  /** A number has only one split into three 16-bit words. */
  lemma WordSplitUnique(a0: u16, a1: u16, a2: u16, c0: u16, c1: u16, c2: u16)
    requires a0 as int * 0x1_0000_0000 + a1 as int * 0x1_0000 + a2 == c0 as int * 0x1_0000_0000 + c1 as int * 0x1_0000 + c2
    ensures a0 == c0 && a1 == c1 && a2 == c2
  {
    var s := a0 as int * 0x1_0000_0000 + a1 as int * 0x1_0000 + a2;
    ModUnique(s, 0x1_0000, a0 as int * 0x1_0000 + a1, a2);
    ModUnique(s, 0x1_0000, c0 as int * 0x1_0000 + c1, c2);
    ModUnique(s / 0x1_0000, 0x1_0000, a0, a1);
    ModUnique(s / 0x1_0000, 0x1_0000, c0, c1);
  }

  /** Decoding the frame of a serial number gives that serial number back. */
  lemma SerialNumberRoundTrip(s: nat, crcs: seq<u8>)
    requires s < 0x1_0000_0000_0000 && |crcs| == 3
    ensures |Frame(SerialWords(s), crcs)| == 9
    ensures SerialNumberOf(Frame(SerialWords(s), crcs)) == s
  {
    var words := SerialWords(s);
    var buf := Frame(words, crcs);
    FrameAt(words, crcs, 0);
    FrameAt(words, crcs, 1);
    FrameAt(words, crcs, 2);
    SerialWordsValue(s);
    assert FromBeBytes(buf[0], buf[1]) == words[0];
    assert FromBeBytes(buf[3], buf[4]) == words[1];
    assert FromBeBytes(buf[6], buf[7]) == words[2];
  }

  /** Every data byte of the frame is recovered from the serial number: two
      frames with the same checksum bytes decode alike only if they are equal. */
  lemma SerialNumberDeterminesFrame(buf: seq<u8>)
    requires |buf| == 9
    ensures Frame(SerialWords(SerialNumberOf(buf)), CrcBytes(buf)) == buf
  {
    SerialNumberWords(buf);
    FrameOfParts(buf);
  }

  /** Splitting the serial number into words gives the data words of its frame. */
  lemma SerialNumberWords(buf: seq<u8>)
    requires |buf| == 9
    ensures SerialWords(SerialNumberOf(buf)) == DataWords(buf)
  {
    var w0, w1, w2 := FromBeBytes(buf[0], buf[1]), FromBeBytes(buf[3], buf[4]), FromBeBytes(buf[6], buf[7]);
    assert DataWords(buf) == [w0, w1, w2];
    var s := SerialNumberOf(buf);
    assert s == w0 as int * 0x1_0000_0000 + w1 as int * 0x1_0000 + w2;
    var parts := SerialWords(s);
    SerialWordsValue(s);
    WordSplitUnique(parts[0], parts[1], parts[2], w0, w1, w2);
  }

  /** The checksum bytes do not affect the serial number. */
  lemma SerialNumberIgnoresCrc(a: seq<u8>, b: seq<u8>)
    requires |a| == |b| == 9
    requires forall i | 0 <= i < 9 && i % 3 != 2 :: a[i] == b[i]
    ensures SerialNumberOf(a) == SerialNumberOf(b)
  {
    assert a[0] == b[0] && a[1] == b[1] && a[3] == b[3];
    assert a[4] == b[4] && a[6] == b[6] && a[7] == b[7];
  }

  /** The serial-number frame of the driver's own test. */
  function SampleSerialFrame(): (r: seq<u8>)
    ensures |r| == 9
  {
    [0xBE, 0xEF, 0x92, 0xBE, 0xEF, 0x92, 0xBE, 0xEF, 0x92]
  }

  /** The frame `BE EF 92` three times decodes to 0xBEEFBEEFBEEF. */
  lemma SerialNumberExample()
    ensures SerialNumberOf(SampleSerialFrame()) == 0xBEEF_BEEF_BEEF
  {
  }

  // ---------------------------------------------------------------------------
  // Data-ready status: one triplet

  /** Masking the status word with 0x7FF keeps its low 11 bits: the low three
      bits of the first byte, then the second byte. */
  lemma StatusMaskValue(hi: u8, lo: u8)
    ensures And(FromBeBytes(hi, lo), 0x7FF) == FromBeBytes(hi, lo) % 0x800
    ensures And(FromBeBytes(hi, lo), 0x7FF) == (hi % 8) * 0x100 + lo
  {
    Pow2Table();
    var status := FromBeBytes(hi, lo);
    AndLowMask(status, 11);
    var h := hi as int;
    assert status == h * 0x100 + lo;
    assert h * 0x100 == 0x800 * (h / 8) + (h % 8) * 0x100;
    ModUnique(status, 0x800, h / 8, (h % 8) * 0x100 + lo);
  }

  /** New data is ready when one of the low 11 bits of the status word is set:
      when the word is not a multiple of 2^11, that is when the low three bits
      of the first byte or the second byte are not all zero. Bits 11 to 15 and
      the checksum byte play no part. */
  function DataReadyOf(buf: seq<u8>): (r: bool)
    requires |buf| == 3
    ensures r <==> FromBeBytes(buf[0], buf[1]) % 0x800 != 0
    ensures r <==> buf[0] % 8 != 0 || buf[1] != 0
  {
    StatusMaskValue(buf[0], buf[1]);
    And(FromBeBytes(buf[0], buf[1]), 0x7FF) != 0
  }

  /** Two status frames that agree on bits 0 to 10 agree on readiness. */
  lemma DataReadyIgnoresHighBits(a: seq<u8>, b: seq<u8>)
    requires |a| == |b| == 3
    requires a[0] % 8 == b[0] % 8 && a[1] == b[1]
    ensures DataReadyOf(a) == DataReadyOf(b)
  {
  }

  // ---------------------------------------------------------------------------
  // Measurement: eight triplets

  /** The eight raw measurement words. */
  datatype RawMeasurement = RawMeasurement(
    pm1_0: u16, pm2_5: u16, pm4_0: u16, pm10_0: u16,
    temperature: u16, humidity: u16, vocIndex: u16, noxIndex: u16)

  /** The words of a measurement frame. Bytes 2, 5, ..., 23 are checksums and
      are not looked at. */
  function RawMeasurementOf(buf: seq<u8>): (m: RawMeasurement)
    requires |buf| == 24
    ensures FrameOrder(m) == DataWords(buf)
  {
    var m := RawMeasurement(
      pm1_0 := FromBeBytes(buf[0], buf[1]),
      pm2_5 := FromBeBytes(buf[3], buf[4]),
      pm4_0 := FromBeBytes(buf[6], buf[7]),
      pm10_0 := FromBeBytes(buf[9], buf[10]),
      humidity := FromBeBytes(buf[12], buf[13]),
      temperature := FromBeBytes(buf[15], buf[16]),
      vocIndex := FromBeBytes(buf[18], buf[19]),
      noxIndex := FromBeBytes(buf[21], buf[22]));
    var words := DataWords(buf);
    assert |words| == 8;
    assert words[0] == FromBeBytes(buf[0], buf[1]);
    assert words[4] == FromBeBytes(buf[12], buf[13]);
    assert words[5] == FromBeBytes(buf[15], buf[16]);
    assert words[7] == FromBeBytes(buf[21], buf[22]);
    m
  }

  /** The order in which the device sends the eight values. */
  function FrameOrder(m: RawMeasurement): (r: seq<u16>)
  {
    [m.pm1_0, m.pm2_5, m.pm4_0, m.pm10_0, m.humidity, m.temperature, m.vocIndex, m.noxIndex]
  }

  /** Word `i` of the frame, `buf[3i]·256 + buf[3i+1]`, is the `i`-th value in
      frame order: pm1.0, pm2.5, pm4.0, pm10.0, humidity, temperature, VOC, NOx. */
  lemma RawMeasurementWords(buf: seq<u8>)
    requires |buf| == 24
    ensures FrameOrder(RawMeasurementOf(buf)) == DataWords(buf)
    ensures forall i | 0 <= i < 8 :: FrameOrder(RawMeasurementOf(buf))[i] == buf[3 * i] as int * 0x100 + buf[3 * i + 1]
  {
    var words := DataWords(buf);
    assert |words| == 8;
  }

  /** Decoding the frame of a measurement gives that measurement back. */
  lemma MeasurementRoundTrip(m: RawMeasurement, crcs: seq<u8>)
    requires |crcs| == 8
    ensures |Frame(FrameOrder(m), crcs)| == 24
    ensures RawMeasurementOf(Frame(FrameOrder(m), crcs)) == m
  {
    var buf := Frame(FrameOrder(m), crcs);
    WordsOfFrame(FrameOrder(m), crcs);
    FrameLength(FrameOrder(m), crcs);
    RawMeasurementWords(buf);
  }

  /** The decoded measurement and the checksum bytes together rebuild the
      frame, so frames with the same checksums decode alike only if equal. */
  lemma MeasurementDeterminesFrame(buf: seq<u8>)
    requires |buf| == 24
    ensures Frame(FrameOrder(RawMeasurementOf(buf)), CrcBytes(buf)) == buf
  {
    RawMeasurementWords(buf);
    FrameOfParts(buf);
  }

  /** The checksum bytes do not affect the decoded measurement. */
  lemma MeasurementIgnoresCrc(a: seq<u8>, b: seq<u8>)
    requires |a| == |b| == 24
    requires forall i | 0 <= i < 24 && i % 3 != 2 :: a[i] == b[i]
    ensures RawMeasurementOf(a) == RawMeasurementOf(b)
  {
    assert DataWords(a) == DataWords(b);
    RawMeasurementWords(a);
    RawMeasurementWords(b);
  }

  /** A measurement in physical units, each value the exact quotient of its raw
      word and the scale factor of the data sheet. */
  datatype Reading = Reading(
    pm1_0: real, pm2_5: real, pm4_0: real, pm10_0: real,
    temperature: real, humidity: real, vocIndex: real, noxIndex: real)

  /** Particulate matter, VOC and NOx are in tenths, humidity in hundredths of a
      percent and temperature in units of 1/200 °C. */
  function Convert(m: RawMeasurement): (r: Reading)
    ensures r.pm1_0 * 10.0 == m.pm1_0 as real && r.pm2_5 * 10.0 == m.pm2_5 as real
    ensures r.pm4_0 * 10.0 == m.pm4_0 as real && r.pm10_0 * 10.0 == m.pm10_0 as real
    ensures r.temperature * 200.0 == m.temperature as real && r.humidity * 100.0 == m.humidity as real
    ensures r.vocIndex * 10.0 == m.vocIndex as real && r.noxIndex * 10.0 == m.noxIndex as real
  {
    Reading(
      pm1_0 := m.pm1_0 as real / 10.0,
      pm2_5 := m.pm2_5 as real / 10.0,
      pm4_0 := m.pm4_0 as real / 10.0,
      pm10_0 := m.pm10_0 as real / 10.0,
      temperature := m.temperature as real / 200.0,
      humidity := m.humidity as real / 100.0,
      vocIndex := m.vocIndex as real / 10.0,
      noxIndex := m.noxIndex as real / 10.0)
  }

  /** The measurement frame of the driver's own test. */
  function SampleFrame(): (r: seq<u8>)
    ensures |r| == 24
  {
    [0x00, 0x12, 0xA0, 0x00, 0x16, 0x64, 0x00, 0x18, 0x7B, 0x00, 0x1A, 0x19,
     0x15, 0x8A, 0x39, 0x11, 0x81, 0x50, 0x01, 0x68, 0x77, 0x00, 0x0A, 0x5A]
  }

  /** The sample frame reads pm2.5 = 22, humidity = 5514 and temperature = 4481,
      that is 2.2 µg/m³, 55.14 %RH and 22.405 °C. */
  lemma MeasurementExample()
    ensures var m := RawMeasurementOf(SampleFrame());
      m.pm2_5 == 22 && m.humidity == 5514 && m.temperature == 4481
      && Convert(m).pm2_5 == 2.2 && Convert(m).humidity == 55.14 && Convert(m).temperature == 22.405
  {
  }
}
