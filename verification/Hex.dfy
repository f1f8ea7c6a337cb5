/**
 Fixed-width hexadecimal text for file sizes and chunk indexes, the size
 attribute that only grows through guarded updates, and chunk object names.
 */
module Hex {
  import opened TextOrder

  const TWO_TO_THE_32: nat := 0x1_0000_0000
  const FILE_SIZE_LENGTH: nat := 16
  const CHUNK_LENGTH: nat := 8
  const UUID_LENGTH: nat := 36

  function Pow16(w: nat): (p: nat)
    ensures p > 0
  {
    if w == 0 then 1 else 16 * Pow16(w - 1)
  }

  function Digit(d: nat): (c: char)
    requires d < 16
    ensures DigitValue(c) == d
  {
    if d < 10 then '0' + d as char else 'a' + (d - 10) as char
  }

  function DigitValue(c: char): nat {
    if '0' <= c <= '9' then (c - '0') as nat
    else if 'a' <= c <= 'f' then 10 + (c - 'a') as nat
    else 0
  }

  /** The text of sprintf("%0*x", w, n), for a value that fits in w digits. */
  function Print(n: nat, w: nat): (s: string)
    requires n < Pow16(w)
    ensures |s| == w
  {
    if w == 0 then "" else
      var p := Pow16(w - 1);
      QuotientFits(n, p);
      [Digit(n / p)] + Print(n % p, w - 1)
  }

  lemma QuotientFits(n: nat, p: nat)
    requires p > 0 && n < 16 * p
    ensures 0 <= n / p < 16 && 0 <= n % p < p && n == (n / p) * p + n % p
  {
  }

  /** strtoul(s, 0, 16) on a text of hexadecimal digits. */
  function Parse(s: string): nat {
    if s == [] then 0 else DigitValue(s[0]) * Pow16(|s| - 1) + Parse(s[1..])
  }

  lemma NothingToPrint(n: nat)
    requires n < Pow16(0)
    ensures n == 0 && Print(n, 0) == ""
  {
  }

  /** One digit and the rest, with the division done. */
  lemma PrintStep(n: nat, w: nat)
    requires w > 0 && n < Pow16(w)
    ensures var p := Pow16(w - 1);
            && n < 16 * p && n / p < 16 && n % p < p && n == (n / p) * p + n % p
            && Print(n, w) == [Digit(n / p)] + Print(n % p, w - 1)
  {
    QuotientFits(n, Pow16(w - 1));
    hide Digit;
  }

  lemma ParseStep(d: nat, s: string)
    requires d < 16
    ensures Parse([Digit(d)] + s) == d * Pow16(|s|) + Parse(s)
  {
    hide Digit, Pow16;
    assert ([Digit(d)] + s)[1..] == s;
  }

  lemma {:induction false} ParsePrint(n: nat, w: nat)
    requires n < Pow16(w)
    ensures Parse(Print(n, w)) == n
  {
    hide Pow16, Print, Digit;
    if w == 0 {
      NothingToPrint(n);
    } else {
      var p := Pow16(w - 1);
      PrintStep(n, w);
      ParsePrint(n % p, w - 1);
      ParseStep(n / p, Print(n % p, w - 1));
    }
  }

  lemma MixedRadixOrder(q: nat, r: nat, q': nat, r': nat, p: nat)
    requires r < p && r' < p
    ensures q * p + r < q' * p + r' <==> q < q' || (q == q' && r < r')
  {
    if q < q' {
      assert q * p + p == (q + 1) * p <= q' * p;
    } else if q' < q {
      assert q' * p + p == (q' + 1) * p <= q * p;
    }
  }

  lemma QuotientOrder(a: nat, b: nat, p: nat)
    requires p > 0 && a < 16 * p && b < 16 * p
    ensures a < b <==> a / p < b / p || (a / p == b / p && a % p < b % p)
  {
    QuotientFits(a, p);
    QuotientFits(b, p);
    MixedRadixOrder(a / p, a % p, b / p, b % p, p);
  }

  lemma DigitOrder(a: nat, b: nat)
    requires a < 16 && b < 16
    ensures Digit(a) < Digit(b) <==> a < b
    ensures Digit(a) == Digit(b) <==> a == b
  {
  }

  lemma LessCons(c: char, s: string, d: char, t: string)
    ensures Less([c] + s, [d] + t) <==> c < d || (c == d && Less(s, t))
  {
    assert ([c] + s)[1..] == s && ([d] + t)[1..] == t;
  }

  /** Text order of equally wide prints is numeric order. */
  lemma {:induction false} PrintOrder(a: nat, b: nat, w: nat)
    requires a < Pow16(w) && b < Pow16(w)
    ensures Less(Print(a, w), Print(b, w)) <==> a < b
  {
    hide Less, Digit, Pow16, Print;
    if w == 0 {
      NothingToPrint(a);
      NothingToPrint(b);
      LessIrreflexive("");
    } else {
      var p := Pow16(w - 1);
      PrintStep(a, w);
      PrintStep(b, w);
      QuotientOrder(a, b, p);
      DigitOrder(a / p, b / p);
      PrintOrder(a % p, b % p, w - 1);
      LessCons(Digit(a / p), Print(a % p, w - 1), Digit(b / p), Print(b % p, w - 1));
    }
  }

  lemma ThirtyTwoBitsFit(n: nat)
    ensures n % TWO_TO_THE_32 < Pow16(CHUNK_LENGTH) == TWO_TO_THE_32
    ensures Pow16(CHUNK_LENGTH) <= Pow16(FILE_SIZE_LENGTH)
  {
    assert Pow16(4) == 0x10000;
    assert Pow16(8) == 0x1_0000_0000;
    assert Pow16(12) == 0x1_0000_0000_0000;
    assert Pow16(16) == 0x1_0000_0000_0000_0000;
  }

  /** fileSizeToHex: the size is cast to 32 bits before it is printed. */
  function FileSizeToHex(n: nat): (s: string)
    ensures |s| == FILE_SIZE_LENGTH
  {
    ThirtyTwoBitsFit(n);
    Print(n % TWO_TO_THE_32, FILE_SIZE_LENGTH)
  }

  /** A recorded size reads back as itself exactly below 2^32. */
  lemma FileSizeRoundTrip(n: nat)
    ensures Parse(FileSizeToHex(n)) == n % TWO_TO_THE_32
    ensures Parse(FileSizeToHex(n)) == n <==> n < TWO_TO_THE_32
  {
    ThirtyTwoBitsFit(n);
    ParsePrint(n % TWO_TO_THE_32, FILE_SIZE_LENGTH);
  }

  lemma FileSizeOrder(a: nat, b: nat)
    requires a < TWO_TO_THE_32 && b < TWO_TO_THE_32
    ensures Less(FileSizeToHex(a), FileSizeToHex(b)) <==> a < b
  {
    hide Less, Print, Pow16;
    ThirtyTwoBitsFit(a);
    ThirtyTwoBitsFit(b);
    PrintOrder(a, b, FILE_SIZE_LENGTH);
  }

  /**
   The atomic step of setSizeIfBigger: the attribute is replaced when the
   offered text is greater than the stored one; a missing attribute is "".
   */
  function SetSizeIfBigger(attr: string, size: nat): string {
    var offered := FileSizeToHex(size);
    if Less(attr, offered) then offered else attr
  }

  function ReadSize(attr: string): nat {
    Parse(attr)
  }

  ghost predicate SizeText(attr: string) {
    attr == "" || exists n :: 0 <= n < TWO_TO_THE_32 && attr == FileSizeToHex(n)
  }

  lemma SizeTextOf(n: nat)
    ensures SizeText(FileSizeToHex(n))
  {
    assert FileSizeToHex(n) == FileSizeToHex(n % TWO_TO_THE_32);
  }

  /** One guarded update leaves the greater of the stored size and the offered one cut to 32 bits. */
  lemma GuardedUpdate(attr: string, size: nat)
    requires SizeText(attr)
    ensures SizeText(SetSizeIfBigger(attr, size)) && SetSizeIfBigger(attr, size) != ""
    ensures ReadSize(SetSizeIfBigger(attr, size)) ==
            if ReadSize(attr) < size % TWO_TO_THE_32 then size % TWO_TO_THE_32 else ReadSize(attr)
  {
    hide Print, Less;
    var cut := size % TWO_TO_THE_32;
    assert FileSizeToHex(size) == FileSizeToHex(cut);
    SizeTextOf(size);
    FileSizeRoundTrip(cut);
    if attr == "" {
      EmptyIsLess(FileSizeToHex(size));
    } else {
      var n :| 0 <= n < TWO_TO_THE_32 && attr == FileSizeToHex(n);
      FileSizeRoundTrip(n);
      FileSizeOrder(n, cut);
    }
  }

  lemma EmptyIsLess(s: string)
    ensures s != "" ==> Less("", s)
  {
  }

  function Offered(attr: string, offers: seq<nat>): string {
    if offers == [] then attr
    else SetSizeIfBigger(Offered(attr, offers[..|offers| - 1]), offers[|offers| - 1])
  }

  /**
   However the guarded updates of several writers interleave, the recorded
   size is the largest of the starting size and all the offers, each cut to 32
   bits; below 2^32 that is the offers themselves.
   */
  lemma {:induction false} RecordedSizeIsMaximum(attr: string, offers: seq<nat>)
    requires SizeText(attr)
    ensures SizeText(Offered(attr, offers))
    ensures ReadSize(attr) <= ReadSize(Offered(attr, offers))
    ensures forall i :: 0 <= i < |offers| ==> offers[i] % TWO_TO_THE_32 <= ReadSize(Offered(attr, offers))
    ensures ReadSize(Offered(attr, offers)) == ReadSize(attr) ||
            exists i :: 0 <= i < |offers| && ReadSize(Offered(attr, offers)) == offers[i] % TWO_TO_THE_32
  {
    hide SetSizeIfBigger, Parse, SizeText;
    if offers != [] {
      var front := offers[..|offers| - 1];
      RecordedSizeIsMaximum(attr, front);
      GuardedUpdate(Offered(attr, front), offers[|offers| - 1]);
      assert offers == front + [offers[|offers| - 1]];
    }
  }

  /** makeFileChunkName: chunk 0 is the inode object itself. */
  function MakeFileChunkName(inode: string, chunk: nat): string {
    ThirtyTwoBitsFit(chunk);
    if chunk == 0 then inode
    else inode + "//" + Print(chunk % TWO_TO_THE_32, CHUNK_LENGTH)
  }

  function GetBaseInode(name: string): string {
    if |name| < UUID_LENGTH then "" else name[..UUID_LENGTH]
  }

  lemma PrintInjective(a: nat, b: nat, w: nat)
    requires a < Pow16(w) && b < Pow16(w) && Print(a, w) == Print(b, w)
    ensures a == b
  {
    ParsePrint(a, w);
    ParsePrint(b, w);
  }

  /**
   Two chunks share an object name exactly when they belong to the same inode
   and their indexes agree modulo 2^32 (index 0 has a form of its own), and
   the inode can be read off every chunk name.
   */
  lemma ChunkNames(inode: string, chunk: nat, inode': string, chunk': nat)
    requires |inode| == UUID_LENGTH && |inode'| == UUID_LENGTH
    ensures GetBaseInode(MakeFileChunkName(inode, chunk)) == inode
    ensures MakeFileChunkName(inode, chunk) == MakeFileChunkName(inode', chunk') <==>
            inode == inode' && (chunk == 0 <==> chunk' == 0) &&
            chunk % TWO_TO_THE_32 == chunk' % TWO_TO_THE_32
    ensures chunk < TWO_TO_THE_32 && chunk' < TWO_TO_THE_32 ==>
              (MakeFileChunkName(inode, chunk) == MakeFileChunkName(inode', chunk') <==>
               inode == inode' && chunk == chunk')
  {
    hide Print, Pow16;
    var name, name' := MakeFileChunkName(inode, chunk), MakeFileChunkName(inode', chunk');
    ThirtyTwoBitsFit(chunk);
    ThirtyTwoBitsFit(chunk');
    assert name[..UUID_LENGTH] == inode && name'[..UUID_LENGTH] == inode';
    if name == name' && chunk != 0 {
      assert |name'| > UUID_LENGTH;
      assert name[UUID_LENGTH + 2..] == Print(chunk % TWO_TO_THE_32, CHUNK_LENGTH);
      assert name'[UUID_LENGTH + 2..] == Print(chunk' % TWO_TO_THE_32, CHUNK_LENGTH);
      PrintInjective(chunk % TWO_TO_THE_32, chunk' % TWO_TO_THE_32, CHUNK_LENGTH);
    }
  }

  lemma Digits()
    ensures Pow16(1) == 16 && Pow16(2) == 256 && Pow16(3) == 4096
    ensures Print(0x2af, 3) == "2af" && Print(0x1a, 2) == "1a"
  {
    SmallPowers();
    assert Print(0xf, 1) == "f";
    assert Print(0xaf, 2) == "af";
    assert Print(0xa, 1) == "a";
  }

  /** The text as it stands in the store: sixteen and eight digits, lower case, leading zeros. */
  lemma WrittenOut(inode: string)
    ensures FileSizeToHex(0x2af) == "00000000000002af"
    ensures MakeFileChunkName(inode, 26) == inode + "//0000001a" && MakeFileChunkName(inode, 0) == inode
  {
    hide Print, Pow16, Filler;
    Digits();
    ThirtyTwoBitsFit(0x2af);
    ThirtyTwoBitsFit(26);
    Padded(0x2af, 3, 13);
    Padded(0x1a, 2, 6);
    Fillers();
    assert "0000000000000" + "2af" == "00000000000002af" && "000000" + "1a" == "0000001a";
    assert inode + "//" + "0000001a" == inode + "//0000001a";
  }

  lemma SmallPowers()
    ensures Pow16(1) == 16 && Pow16(2) == 256 && Pow16(3) == 4096
  {
  }

  function Filler(n: nat): string { seq(n, _ => '0') }

  lemma Fillers()
    ensures Filler(13) == "0000000000000" && Filler(6) == "000000"
  {
  }

  lemma {:induction false} Padded(n: nat, w: nat, more: nat)
    requires n < Pow16(w)
    ensures n < Pow16(w + more) && Print(n, w + more) == Filler(more) + Print(n, w)
    decreases more
  {
    hide Print, Pow16;
    if more == 0 {
      assert Filler(0) + Print(n, w) == Print(n, w);
    } else {
      Padded(n, w, more - 1);
      LeadingZero(n, w + more);
      FillerStep(more, Print(n, w));
    }
  }

  lemma FillerStep(more: nat, s: string)
    requires more > 0
    ensures ['0'] + (Filler(more - 1) + s) == Filler(more) + s
  {
    assert Filler(more) == ['0'] + Filler(more - 1);
  }

  lemma LeadingZero(n: nat, w: nat)
    requires w > 0 && n < Pow16(w - 1)
    ensures n < Pow16(w) && Print(n, w) == ['0'] + Print(n, w - 1)
  {
    var p := Pow16(w - 1);
    assert n < 16 * p;
    SmallQuotient(n, p);
    PrintStep(n, w);
  }

  lemma SmallQuotient(n: nat, p: nat)
    requires n < p
    ensures n / p == 0 && n % p == n
  {
  }
}
