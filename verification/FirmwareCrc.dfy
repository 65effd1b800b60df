/**
 The CRC validation of an upload.  The controller reports the CRC of the image filled up to whole
 words; the host compares the report, as soon as it arrives, with a register it pads only later.
 */
module FirmwareCrc {
  import opened Bytes
  import opened Crc
  import opened CrcPadding
  import FirmwareBank
  import FirmwareHost

  function Widen(b: byte): Octet
  {
    b as bv32
  }

  // Byte k of a word, counted from the low end.
  function Part(w: bv32, k: nat): bv32
    requires k < 4
  {
    (if k == 0 then w else if k == 1 then w >> 8 else if k == 2 then w >> 16 else w >> 24) & 0xff
  }

  function PartValue(w: bv32, k: nat): byte
    requires k < 4
  {
    PartSmall(w, k);
    Part(w, k) as int
  }

  lemma PartSmall(w: bv32, k: nat)
    requires k < 4
    ensures Part(w, k) < 0x100
  {
  }

  // A word as its bytes, low byte first.
  function WordValue(w: bv32): FirmwareBank.CrcValue
  {
    FirmwareBank.CrcValue(PartValue(w, 0), PartValue(w, 1), PartValue(w, 2), PartValue(w, 3))
  }

  // The hardware unit: CRC-32 over the pushed words, from the reset value.
  function HardwareUnit(pushed: seq<byte>): FirmwareBank.CrcValue
  {
    WordValue(DeviceCrc(INITIAL, Map(Widen, pushed)))
  }

  // The host's register when the last portion has been sent, and after its padding loop.
  function Register(image: seq<byte>): bv32
  {
    HostCrc(INITIAL, Map(Widen, image))
  }

  function PaddedRegister(image: seq<byte>): bv32
  {
    HostCrc(INITIAL, Pad(Map(Widen, image)))
  }

  lemma FillCommutes<A, B>(f: A -> B, s: seq<A>, x: A)
    ensures Map(f, FillUp(s, x)) == FillUp(Map(f, s), f(x))
  {
  }

  // The controller's CRC is the one the host's register has after padding.
  lemma SameRegister(image: seq<byte>)
    ensures DeviceCrc(INITIAL, Map(Widen, FirmwareBank.Words(image))) == PaddedRegister(image)
  {
    FirmwareBank.WordsFill(image);
    FillCommutes(Widen, image, 0xff);
    WideBlank();
    PadTwice(Map(Widen, image));
    DeviceAgreesWithHost(INITIAL, Pad(Map(Widen, image)));
  }

  lemma WideBlank()
    ensures Widen(0xff) == 0xff
  {
  }

  lemma PadTwice(data: seq<Octet>)
    ensures Pad(Pad(data)) == Pad(data)
  {
  }

  // ----- The comparison -----

  lemma SameWord(x: bv32, y: bv32)
    ensures FirmwareBank.CrcBytes(WordValue(x)) == FirmwareBank.CrcBytes(WordValue(y)) <==> x == y
  {
    if FirmwareBank.CrcBytes(WordValue(x)) == FirmwareBank.CrcBytes(WordValue(y)) {
      var a, b := FirmwareBank.CrcBytes(WordValue(x)), FirmwareBank.CrcBytes(WordValue(y));
      assert a[0] == b[0] && a[1] == b[1] && a[2] == b[2] && a[3] == b[3];
      SameInt(Part(x, 0), Part(y, 0));
      SameInt(Part(x, 1), Part(y, 1));
      SameInt(Part(x, 2), Part(y, 2));
      SameInt(Part(x, 3), Part(y, 3));
      FourParts(x, y);
    }
  }

  lemma SameInt(x: bv32, y: bv32)
    requires x as int == y as int
    ensures x == y
  {
    assert (x as int) as bv32 == x;
    assert (y as int) as bv32 == y;
  }

  lemma FourParts(x: bv32, y: bv32)
    requires Part(x, 0) == Part(y, 0) && Part(x, 1) == Part(y, 1) && Part(x, 2) == Part(y, 2) && Part(x, 3) == Part(y, 3)
    ensures x == y
  {
    Joined(x);
    Joined(y);
  }

  lemma Joined(w: bv32)
    ensures Reversed(Part(w, 3), Part(w, 2), Part(w, 1), Part(w, 0)) == w
  {
  }

  // What the handler of a write reply prints behind "CRC Validation".
  predicate Passes(reply: FirmwareBank.Reply, register: bv32)
  {
    |reply.payload| >= 5 && reply.payload[1..5] == FirmwareBank.CrcBytes(WordValue(register))
  }

  // The reported CRC equals the host's register exactly when the image needs no padding, or the
  // register has reached the value that padding leaves alone.
  lemma CrcValidates(image: seq<byte>)
    ensures FirmwareBank.CrcBytes(HardwareUnit(FirmwareBank.Words(image))) == FirmwareBank.CrcBytes(WordValue(Register(image)))
            <==> |image| % 4 == 0 || Register(image) == FIXED
  {
    SameRegister(image);
    SameWord(PaddedRegister(image), Register(image));
    PaddingShows(INITIAL, Map(Widen, image));
  }

  // The reply that completes the upload is the last one, it carries the CRC, and the host prints
  // "Pass" for it exactly under that condition.
  lemma UploadValidates(u: FirmwareBank.Upload, info: seq<byte>, image: seq<byte>)
    requires FirmwareBank.Holds(u, HardwareUnit, info, []) && u.pushed == []
    requires |image| == Word16(info[6], info[7]) && FirmwareBank.Uploadable(|image|)
    ensures Passes(FirmwareHost.LastReply(HardwareUnit, u, image), Register(image))
            <==> |image| % 4 == 0 || Register(image) == FIXED
  {
    FirmwareHost.LastCarriesCrc(HardwareUnit, u, info, image);
    CrcValidates(image);
    PassesCrc(FirmwareBank.CrcBytes(HardwareUnit(FirmwareBank.Words(image))), Register(image));
  }

  lemma PassesCrc(c: seq<byte>, register: bv32)
    requires |c| == 4
    ensures Passes(FirmwareBank.Reply(FirmwareBank.WRITE, [1] + c), register) <==> c == FirmwareBank.CrcBytes(WordValue(register))
  {
    assert ([1] + c)[1..5] == c;
  }

  // For instance, the five bytes 0 to 4 are uploaded in full and yet reported as "Failed".
  lemma FiveBytesFail(u: FirmwareBank.Upload, info: seq<byte>, image: seq<byte>)
    requires FirmwareBank.Holds(u, HardwareUnit, info, []) && u.pushed == []
    requires Word16(info[6], info[7]) == 5 && image == [0, 1, 2, 3, 4]
    ensures FirmwareBank.Holds(FirmwareBank.Session(HardwareUnit, u, FirmwareBank.Portions(image)).0, HardwareUnit, info, image)
    ensures FirmwareBank.Done(info, image)
    ensures !Passes(FirmwareHost.LastReply(HardwareUnit, u, image), Register(image))
  {
    FirmwareBank.HostUpload(HardwareUnit, u, info, image);
    UploadValidates(u, info, image);
    FiveBytes(image);
  }

  lemma FiveBytes(image: seq<byte>)
    requires image == [0, 1, 2, 3, 4]
    ensures Register(image) == 0xf923_512a != FIXED
  {
    var w: seq<Octet> := [0, 1, 2, 3];
    Widened(image, w);
    FourBytesPushed(w);
    HostNext(INITIAL, w, 4);
    PushFour();
  }

  lemma Widened(image: seq<byte>, w: seq<Octet>)
    requires image == [0, 1, 2, 3, 4] && w == [0, 1, 2, 3]
    ensures Map(Widen, image) == w + [4]
  {
  }

  lemma FourBytesPushed(w: seq<Octet>)
    requires w == [0, 1, 2, 3]
    ensures HostCrc(INITIAL, w) == 0x6b6d_c92a
  {
    PushZero();
    PushOne();
    PushTwo();
    PushThree();
    var push := (c: bv32, b: Octet) => PushByte(c, b);
    FoldChain(push, INITIAL, w, 0x4e08_bfb4, 0x0476_79ca, 0x6cff_87b2, 0x6b6d_c92a);
    assert HostCrc(INITIAL, w) == Fold(push, INITIAL, w);
  }

  lemma FoldChain<S, I>(push: (S, I) -> S, s: S, w: seq<I>, s1: S, s2: S, s3: S, s4: S)
    requires |w| == 4 && push(s, w[0]) == s1 && push(s1, w[1]) == s2 && push(s2, w[2]) == s3 && push(s3, w[3]) == s4
    ensures Fold(push, s, w) == s4
  {
    FoldFour(push, s, [], w);
    assert [] + w == w;
    assert Fold(push, s, []) == s;
  }

  lemma PushZero()
    ensures PushByte(INITIAL, 0) == 0x4e08_bfb4
  {
    PushIsShifts(INITIAL, 0);
    EightShifts(0xffffffff, 0xfb3ee249, 0xf2bcd925, 0xe1b8affd, 0xc7b0424d, 0x8ba1992d, 0x13822fed, 0x27045fda, 0x4e08bfb4);
  }

  lemma PushOne()
    ensures PushByte(0x4e08_bfb4, 1) == 0x0476_79ca
  {
    PushIsShifts(0x4e08_bfb4, 1);
    EightShifts(0x4f08bfb4, 0x9e117f68, 0x38e3e367, 0x71c7c6ce, 0xe38f8d9c, 0xc3de068f, 0x837d10a9, 0x023b3ce5, 0x047679ca);
  }

  lemma PushTwo()
    ensures PushByte(0x0476_79ca, 2) == 0x6cff_87b2
  {
    PushIsShifts(0x0476_79ca, 2);
    EightShifts(0x067679ca, 0x0cecf394, 0x19d9e728, 0x33b3ce50, 0x67679ca0, 0xcecf3940, 0x995f6f37, 0x367fc3d9, 0x6cff87b2);
  }

  lemma PushThree()
    ensures PushByte(0x6cff_87b2, 3) == 0x6b6d_c92a
  {
    PushIsShifts(0x6cff_87b2, 3);
    EightShifts(0x6fff87b2, 0xdfff0f64, 0xbb3f037f, 0x72bf1b49, 0xe57e3692, 0xce3d7093, 0x98bbfc91, 0x35b6e495, 0x6b6dc92a);
  }

  lemma PushFour()
    ensures PushByte(0x6b6d_c92a, 4) == 0xf923_512a
  {
    PushIsShifts(0x6b6d_c92a, 4);
    EightShifts(0x6f6dc92a, 0xdedb9254, 0xb976391f, 0x762d6f89, 0xec5adf12, 0xdc74a393, 0xbc285a91, 0x7c91a895, 0xf923512a);
  }
}
