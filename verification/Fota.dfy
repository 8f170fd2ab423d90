/** The boot loader's firmware upgrade: verify the downloaded image, copy it to the application
    partition, and mark it as installed, with power failing at any flash operation. */
module Fota {
  import opened Words
  import opened Arith
  import Crc

  // ---- the head of an image ----

  const HEAD: nat := 96
  const CHUNK: nat := 4096
  const GRANULARITY: nat := 4096
  const VERSION: nat := 24

  const APP_NAME: nat := 12
  const DOWNLOAD: nat := 28
  const CURRENT: nat := 52
  const CODE_CRC: nat := 76
  const RAW_SIZE: nat := 84
  const COM_SIZE: nat := 88
  const HEAD_CRC: nat := 92

  const RBL: seq<Byte> := [0x52, 0x42, 0x4c, 0]

  type Name = seq<Byte>

  /** The partitions that applications run from and that images are downloaded to, and the bound on the
      length of a partition's name. */
  const APP: Name := [0x61, 0x70, 0x70]
  const FM: Name := [0x66, 0x6d, 0x5f, 0x61, 0x72, 0x65, 0x61]
  const NAME_MAX: nat := 24

  function WordAt(s: seq<Byte>, at: nat): Word
    requires at + 4 <= |s|
  {
    FromLe(s[at..at + 4])
  }

  function SizeAt(s: seq<Byte>, at: nat): nat
    requires at + 4 <= |s|
  {
    WordAt(s, at) as nat
  }

  /** The bytes up to the terminating zero, or to the end of what there is. */
  function CString(s: seq<Byte>, at: nat): seq<Byte>
    requires at <= |s|
    decreases |s| - at
  {
    if at == |s| || s[at] == 0 then [] else [s[at]] + CString(s, at + 1)
  }

  /** The partition that an image is for. */
  function Target(head: seq<Byte>): Name
    requires |head| >= HEAD
  {
    CString(head[..HEAD], APP_NAME)
  }

  /** Neither encrypted, in a way that the boot loader knows of, nor compressed. */
  predicate PlainImage(head: seq<Byte>)
    requires |head| >= HEAD
  {
    LowNibble(head[4]) != 1 && LowNibble(head[4]) != 2 && LowNibble(head[5]) == 0
  }

  function LowNibble(b: Byte): Byte {
    b & 0x0f
  }

  function ImageSize(fm: seq<Byte>): nat
    requires |fm| >= HEAD
  {
    SizeAt(fm, COM_SIZE)
  }

  predicate NamesFit(names: set<Name>) {
    forall n | n in names :: |n| < NAME_MAX
  }

  /** A partition that holds an undamaged image, for one of the partitions there are, that can be read in
      whole chunks. */
  predicate Verified(fm: seq<Byte>, names: set<Name>) {
    && |fm| >= HEAD
    && Crc.FotaCrc(fm[..HEAD_CRC]) == WordAt(fm, HEAD_CRC)
    && fm[..4] == RBL && Target(fm) in names
    && HEAD + AlignUp(ImageSize(fm), CHUNK) <= |fm|
    && Crc.FotaCrc(Image(fm)) == WordAt(fm, CODE_CRC)
  }

  function Image(fm: seq<Byte>): (s: seq<Byte>)
    requires |fm| >= HEAD && HEAD + AlignUp(ImageSize(fm), CHUNK) <= |fm|
    ensures |s| == ImageSize(fm)
  {
    AlignUpIs(ImageSize(fm), CHUNK);
    fm[HEAD..HEAD + ImageSize(fm)]
  }

  predicate Differs(head: seq<Byte>)
    requires |head| >= HEAD
  {
    CString(head[..HEAD], DOWNLOAD) != CString(head[..HEAD], CURRENT)
  }

  /** An image waits to be installed. */
  predicate Pending(fm: seq<Byte>, names: set<Name>) {
    Verified(fm, names) && Differs(fm)
  }

  /** The application partition holds the whole image. */
  predicate Installed(app: seq<Byte>, image: seq<Byte>) {
    image <= app
  }

  // ---- marking an image as installed ----

  function Marked(fm: seq<Byte>): (m: seq<Byte>)
    requires |fm| >= HEAD
    ensures |m| == |fm|
  {
    var head := fm[..CURRENT] + fm[DOWNLOAD..DOWNLOAD + VERSION] + fm[CODE_CRC..HEAD_CRC];
    head + Le(Crc.FotaCrc(head)) + fm[HEAD..]
  }

  /** A part of a part. */
  lemma Part(s: seq<Byte>, from: nat, to: nat, lo: nat, hi: nat)
    requires from <= to <= |s| && from <= lo <= hi <= to
    ensures s[lo..hi] == s[from..to][lo - from..hi - from]
  {
    var t := s[from..to];
    forall k | 0 <= k < hi - lo ensures s[lo..hi][k] == t[lo - from..hi - from][k] {
      assert t[lo - from + k] == s[lo + k];
    }
  }

  lemma SameSize(a: seq<Byte>, b: seq<Byte>, at: nat)
    requires at + 4 <= |a| && at + 4 <= |b| && a[at..at + 4] == b[at..at + 4]
    ensures SizeAt(a, at) == SizeAt(b, at)
  {
    hide FromLe;
  }

  lemma {:induction false} CStringLength(s: seq<Byte>, at: nat)
    requires at <= |s|
    ensures at + |CString(s, at)| <= |s|
    ensures forall k | at <= k < at + |CString(s, at)| :: s[k] != 0 && CString(s, at)[k - at] == s[k]
    ensures at + |CString(s, at)| < |s| ==> s[at + |CString(s, at)|] == 0
    decreases |s| - at
  {
    if at < |s| && s[at] != 0 {
      CStringLength(s, at + 1);
    }
  }

  lemma MarkedKeeps(fm: seq<Byte>)
    requires |fm| >= HEAD
    ensures var m := Marked(fm);
            && m[..CURRENT] == fm[..CURRENT] && m[CODE_CRC..HEAD_CRC] == fm[CODE_CRC..HEAD_CRC]
            && m[HEAD..] == fm[HEAD..]
            && Crc.FotaCrc(m[..HEAD_CRC]) == WordAt(m, HEAD_CRC)
  {
    hide Crc.FotaCrc, FromLe, Le;
    var head := fm[..CURRENT] + fm[DOWNLOAD..DOWNLOAD + VERSION] + fm[CODE_CRC..HEAD_CRC];
    RoundTrip(Crc.FotaCrc(head));
    assert Marked(fm)[..HEAD_CRC] == head;
    assert Marked(fm)[HEAD_CRC..HEAD] == Le(Crc.FotaCrc(head));
  }

  lemma {:induction false} SameCString(a: seq<Byte>, b: seq<Byte>, at: nat, end: nat)
    requires at < end <= |a| && end <= |b| && a[..end] == b[..end] && a[end - 1] == 0
    ensures CString(a, at) == CString(b, at)
    decreases end - at
  {
    assert a[at] == a[..end][at] == b[..end][at] == b[at];
    if a[at] != 0 {
      SameCString(a, b, at + 1, end);
    }
  }

  /** A mark is behind the name of the partition. */
  lemma SameTarget(fm: seq<Byte>, m: seq<Byte>)
    requires |fm| >= HEAD && |m| >= HEAD && m[..CURRENT] == fm[..CURRENT] && |Target(fm)| < NAME_MAX
    ensures Target(m) == Target(fm)
  {
    CStringLength(fm[..HEAD], APP_NAME);
    var end := APP_NAME + |Target(fm)| + 1;
    assert fm[..HEAD][..end] == fm[..CURRENT][..end] == m[..CURRENT][..end] == m[..HEAD][..end];
    SameCString(fm[..HEAD], m[..HEAD], APP_NAME, end);
  }

  lemma SameParts(a: seq<Byte>, b: seq<Byte>, from: nat, to: nat, lo: nat, hi: nat)
    requires to <= |a| && to <= |b| && from <= lo <= hi <= to && a[from..to] == b[from..to]
    ensures a[lo..hi] == b[lo..hi]
  {
    Part(a, from, to, lo, hi);
    Part(b, from, to, lo, hi);
  }

  lemma SameHead(fm: seq<Byte>, m: seq<Byte>)
    requires |fm| >= HEAD && |m| >= HEAD && m[..CURRENT] == fm[..CURRENT]
    requires m[CODE_CRC..HEAD_CRC] == fm[CODE_CRC..HEAD_CRC]
    ensures m[..4] == fm[..4] && PlainImage(m) == PlainImage(fm)
    ensures SizeAt(m, RAW_SIZE) == SizeAt(fm, RAW_SIZE) && SizeAt(m, COM_SIZE) == SizeAt(fm, COM_SIZE)
    ensures WordAt(m, CODE_CRC) == WordAt(fm, CODE_CRC)
  {
    hide SizeAt, FromLe, LowNibble;
    SameParts(fm, m, 0, CURRENT, 0, 4);
    assert m[4] == m[..CURRENT][4] == fm[..CURRENT][4] == fm[4];
    assert m[5] == m[..CURRENT][5] == fm[..CURRENT][5] == fm[5];
    SameParts(fm, m, CODE_CRC, HEAD_CRC, CODE_CRC, CODE_CRC + 4);
    SameParts(fm, m, CODE_CRC, HEAD_CRC, RAW_SIZE, RAW_SIZE + 4);
    SameParts(fm, m, CODE_CRC, HEAD_CRC, COM_SIZE, COM_SIZE + 4);
    SameSize(m, fm, RAW_SIZE);
    SameSize(m, fm, COM_SIZE);
  }

  /** An image is still good once it has been marked, and it is the same image, for the same partition. */
  lemma MarkedIsVerified(fm: seq<Byte>, names: set<Name>)
    requires Verified(fm, names) && NamesFit(names)
    ensures Verified(Marked(fm), names) && Image(Marked(fm)) == Image(fm) && Target(Marked(fm)) == Target(fm)
    ensures PlainImage(Marked(fm)) == PlainImage(fm) && SizeAt(Marked(fm), RAW_SIZE) == SizeAt(fm, RAW_SIZE)
  {
    hide Crc.FotaCrc, FromLe, SizeAt, AlignUp, Marked, Target, PlainImage;
    var m := Marked(fm);
    MarkedKeeps(fm);
    SameTarget(fm, m);
    SameHead(fm, m);
    AlignUpIs(ImageSize(fm), CHUNK);
    var n := ImageSize(fm);
    assert m[HEAD..HEAD + n] == m[HEAD..][..n] == fm[HEAD..][..n] == fm[HEAD..HEAD + n];
  }

  /** The downloaded version ends within its field. */
  predicate Terminated(fm: seq<Byte>)
    requires |fm| >= HEAD
  {
    exists k :: DOWNLOAD <= k < DOWNLOAD + VERSION && fm[k] == 0
  }

  /** Once an image has been marked the versions read as the same exactly if the downloaded version is
      terminated within its field: an unterminated one runs on into the other. */
  lemma MarkedDiffers(fm: seq<Byte>)
    requires |fm| >= HEAD
    ensures Differs(Marked(fm)) <==> !Terminated(fm)
  {
    hide Crc.FotaCrc, Le;
    var s := Marked(fm)[..HEAD];
    forall k | DOWNLOAD <= k < DOWNLOAD + VERSION ensures s[k] == fm[k] && SameAt(s, k, VERSION) {
    }
    SameStrings(s, DOWNLOAD, CURRENT, VERSION);
  }

  predicate SameAt(s: seq<Byte>, k: nat, n: nat) {
    k + n < |s| && s[k] == s[k + n]
  }

  /** Two adjacent fields with the same bytes read as the same string exactly if they hold a zero. */
  lemma SameStrings(s: seq<Byte>, a: nat, b: nat, n: nat)
    requires b == a + n && b + n <= |s| && n > 0 && forall k | a <= k < a + n :: SameAt(s, k, n)
    ensures CString(s, a) == CString(s, b) <==> exists k | a <= k < a + n :: s[k] == 0
  {
    CStringLength(s, a);
    CStringLength(s, b);
    var sa, sb := CString(s, a), CString(s, b);
    hide CString;
    var la, lb := |sa|, |sb|;
    if k :| a <= k < a + n && s[k] == 0 {
      assert SameAt(s, k, n);
      assert la < n && lb < n;
      assert SameAt(s, a + la, n) && SameAt(s, a + lb, n);
      forall i | 0 <= i < la ensures sa[i] == sb[i] {
        assert SameAt(s, a + i, n);
        assert sa[i] == s[a + i] && sb[i] == s[b + i];
      }
    } else {
      assert la >= n;
      assert la == n + lb;
    }
  }

  // ---- flash ----

  const SECTOR: nat := 0x2_0000
  const ERASED: Byte := 0xff

  function And(a: Byte, b: Byte): Byte {
    a & b
  }

  lemma AndErased(b: Byte)
    ensures And(ERASED, b) == b
  {
  }

  function Blank(n: nat): (s: seq<Byte>)
    ensures |s| == n && forall i | 0 <= i < n :: s[i] == ERASED
  {
    seq(n, _ => ERASED)
  }

  /** Writing can only clear bits. */
  function Cleared(old': seq<Byte>, data: seq<Byte>): (s: seq<Byte>)
    requires |old'| == |data|
    ensures |s| == |data| && forall i | 0 <= i < |data| :: s[i] == And(old'[i], data[i])
  {
    seq(|data|, i requires 0 <= i < |data| => And(old'[i], data[i]))
  }

  lemma ClearedBlank(data: seq<Byte>)
    ensures Cleared(Blank(|data|), data) == data
  {
    hide And;
    forall i | 0 <= i < |data| ensures Cleared(Blank(|data|), data)[i] == data[i] {
      AndErased(data[i]);
    }
  }

  datatype Error = ReadError | WriteError | EraseError | VerifyFailed | CheckFailed | CopyFailed | GeneralError

  /** How a step ends: well, with an error, or not at all because power was lost. */
  datatype Status = Done | Failed(e: Error) | Lost

  /** The state that an interrupted upgrade may leave: the image still waits, or it is installed and no
      longer waits. */
  predicate Safe(fm: seq<Byte>, app: seq<Byte>, names: set<Name>, image: seq<Byte>) {
    if Pending(fm, names) then Target(fm) == APP && Image(fm) == image else Installed(app, image)
  }

  /** What an image demands of the application partition. */
  predicate Fits(fm: seq<Byte>, app: seq<Byte>)
    requires |fm| >= HEAD
  {
    var padded := AlignUp(ImageSize(fm), CHUNK);
    padded <= |app| && SizeAt(fm, RAW_SIZE) <= padded <= AlignUp(SizeAt(fm, RAW_SIZE), SECTOR)
  }

  /** Anything of the same size. */
  method Torn(s: seq<Byte>) returns (t: seq<Byte>)
    ensures |t| == |s|
  {
    t := *;
    if |t| != |s| {
      t := s;
    }
  }

  class Board {
    const tab: array<Word>
    /** The names of all partitions. */
    const names: set<Name>
    var fm: seq<Byte>
    var app: seq<Byte>
    /** The head of the image that was verified last. */
    var head: seq<Byte>
    /** The flash operations that power will last for. */
    var power: nat

    ghost predicate Valid()
      reads this, tab
    {
      Crc.Generated(tab, Crc.REVERSED) && |head| == HEAD && NamesFit(names)
    }

    /** An erase of the application partition, in whole sectors. Losing power in it leaves anything. */
    method EraseApp(size: nat) returns (r: Status)
      modifies this`app, this`power
      ensures |app| == old(|app|)
      ensures r.Failed? <==> size > |app|
      ensures r == Done ==> old(power) > 0 && power == old(power) - 1
      ensures r == Lost ==> old(power) == 0
      ensures r == Done ==> forall i | 0 <= i < |app| && i < AlignUp(size, SECTOR) :: app[i] == ERASED
    {
      if size > |app| {
        return Failed(EraseError);
      }
      if power == 0 {
        var torn := Torn(app);
        app := torn;
        return Lost;
      }
      power := power - 1;
      var n := if AlignUp(size, SECTOR) < |app| then AlignUp(size, SECTOR) else |app|;
      app := Blank(n) + app[n..];
      r := Done;
    }

    /** A write to the application partition; it fails where the flash was not erased. */
    method WriteApp(at: nat, data: seq<Byte>) returns (r: Status)
      modifies this`app, this`power
      ensures |app| == old(|app|)
      ensures r == Done ==> old(power) > 0 && power == old(power) - 1
      ensures r == Done ==> at + |data| <= |app| && app == old(app)[..at] + data + old(app)[at + |data|..]
      ensures r == Lost ==> old(power) == 0
      ensures old(power) > 0 && at + |data| <= |app| && old(app[at..at + |data|]) == Blank(|data|) ==> r == Done
    {
      if at + |data| > |app| {
        return Failed(WriteError);
      }
      if power == 0 {
        var torn := Torn(app);
        app := torn;
        return Lost;
      }
      power := power - 1;
      ClearedBlank(data);
      var now := Cleared(app[at..at + |data|], data);
      app := app[..at] + now + app[at + |data|..];
      r := if now == data then Done else Failed(WriteError);
    }

    /** Verifies the downloaded image, chunk by chunk, and keeps its head. */
    method FwVerify() returns (r: Status)
      requires Valid()
      modifies this`head
      ensures Valid() && r != Lost
      ensures r == Done <==> Verified(fm, names)
      ensures head == if r == Done then fm[..HEAD] else Zeros()
    {
      hide Crc.Generated, Crc.FotaCrc, FromLe, SizeAt, AlignUp, Aligned, Crc.Crc;
      head := Zeros();
      if |fm| < HEAD {
        return Failed(ReadError);
      }
      var crc := Crc.RtFotaCrc(tab, fm[..HEAD_CRC]);
      if crc != WordAt(fm, HEAD_CRC) {
        return Failed(VerifyFailed);
      }
      if fm[..4] != RBL {
        return Failed(CheckFailed);
      }
      if Target(fm) !in names {
        return Failed(VerifyFailed);
      }
      r := VerifyBody();
      if r == Done {
        head := fm[..HEAD];
      }
    }

    method VerifyBody() returns (r: Status)
      requires Valid() && |fm| >= HEAD
      ensures r != Lost
      ensures r == Done <==>
                HEAD + AlignUp(ImageSize(fm), CHUNK) <= |fm| && Crc.FotaCrc(Image(fm)) == WordAt(fm, CODE_CRC)
    {
      hide Crc.Generated, FromLe, SizeAt, AlignUp, Aligned, Crc.Crc;
      var size := ImageSize(fm);
      var pos, crc := 0, 0xffff_ffff;
      ChunksStart(fm);
      while pos < size
        invariant 0 <= pos <= size && (Aligned(pos, CHUNK) || pos == size) && HEAD + AlignUp(pos, CHUNK) <= |fm|
        invariant HEAD + pos <= |fm| && crc == Crc.Crc(0xffff_ffff, fm[HEAD..HEAD + pos])
      {
        ChunkStep(pos, size);
        if HEAD + pos + CHUNK > |fm| {
          return Failed(ReadError);
        }
        var n := if pos + CHUNK > size then size - pos else CHUNK;
        Crc.CrcAppend(0xffff_ffff, fm[HEAD..HEAD + pos], fm[HEAD + pos..HEAD + pos + n]);
        assert fm[HEAD..HEAD + pos] + fm[HEAD + pos..HEAD + pos + n] == fm[HEAD..HEAD + (pos + n)];
        crc := Crc.Crc32(tab, crc, fm[HEAD + pos..HEAD + pos + n]);
        pos := pos + n;
      }
      crc := Xor(crc, 0xffff_ffff);
      r := if crc == WordAt(fm, CODE_CRC) then Done else Failed(VerifyFailed);
    }

    /** Copies the image to the partition it is for, which it erases first. */
    method Upgrade() returns (r: Status)
      requires Valid() && Verified(fm, names) && head == fm[..HEAD]
      modifies this`fm, this`app, this`power
      ensures |app| == old(|app|) && |fm| == old(|fm|)
      ensures old(Target(fm)) != FM ==> fm == old(fm)
      ensures old(Target(fm)) != APP ==> app == old(app)
      ensures old(Target(fm)) == APP && r == Done ==>
                Installed(app, Image(fm)) && PlainImage(fm) && SizeAt(fm, RAW_SIZE) <= AlignUp(ImageSize(fm), CHUNK)
      ensures old(Target(fm)) == APP && r == Lost ==> old(power) <= 1 + ImageSize(fm)
      ensures old(Target(fm)) == APP && r == Done ==> power + 1 + ImageSize(fm) >= old(power)
      ensures old(Target(fm) == APP && PlainImage(fm) && Fits(fm, app) && power > 1 + ImageSize(fm)) ==> r == Done
    {
      hide Crc.Generated, Crc.FotaCrc, FromLe, SizeAt, AlignUp, Aligned, LowNibble, CString;
      var raw, size := SizeAt(head, RAW_SIZE), SizeAt(head, COM_SIZE);
      HeadFields(fm);
      if Target(head) != APP {
        r := UpgradeOther(Target(head));
        return;
      }
      r := EraseApp(raw);
      if r != Done {
        return;
      }
      if !PlainImage(head) {
        // the images that are decrypted or decompressed are not part of this model
        return Failed(GeneralError);
      }
      var copied;
      r, copied := CopyBody(size, AlignUp(raw, SECTOR));
      if r == Done && copied < raw {
        return Failed(GeneralError);
      }
    }

    /** An upgrade of another partition: what it leaves there is not followed up. */
    method UpgradeOther(name: Name) returns (r: Status)
      requires name != APP
      modifies this`fm, this`power
      ensures |fm| == old(|fm|) && (name != FM ==> fm == old(fm))
    {
      if name == FM {
        var torn := Torn(fm);
        fm := torn;
      }
      power, r := *, *;
    }

    /** Copies one chunk to where the flash is erased. */
    method CopyChunk(pos: nat, ghost blank: nat) returns (r: Status)
      requires HEAD + pos + CHUNK <= |fm| && pos <= |app| && app[..pos] == fm[HEAD..HEAD + pos]
      requires forall i | pos <= i < |app| && i < blank :: app[i] == ERASED
      modifies this`app, this`power
      ensures |app| == old(|app|)
      ensures r == Done ==> pos + CHUNK <= |app| && app[..pos + CHUNK] == fm[HEAD..HEAD + (pos + CHUNK)]
      ensures r == Done ==> old(power) > 0 && power == old(power) - 1
      ensures r == Done ==> forall i | pos + CHUNK <= i < |app| && i < blank :: app[i] == ERASED
      ensures r == Lost ==> old(power) == 0
      ensures old(power) > 0 && pos + CHUNK <= |app| && pos + CHUNK <= blank ==> r == Done
    {
      var chunk := fm[HEAD + pos..HEAD + pos + CHUNK];
      ghost var was := app;
      assert pos + CHUNK <= |app| && pos + CHUNK <= blank ==> app[pos..pos + CHUNK] == Blank(CHUNK);
      r := WriteApp(pos, chunk);
      if r == Done {
        assert app[..pos + CHUNK] == was[..pos] + chunk;
        assert fm[HEAD..HEAD + (pos + CHUNK)] == fm[HEAD..HEAD + pos] + chunk;
      }
    }

    method CopyBody(size: nat, ghost blank: nat) returns (r: Status, copied: nat)
      requires |fm| >= HEAD && HEAD + AlignUp(size, CHUNK) <= |fm|
      requires forall i | 0 <= i < |app| && i < blank :: app[i] == ERASED
      modifies this`app, this`power
      ensures |app| == old(|app|)
      ensures r == Done ==> copied == AlignUp(size, CHUNK) && HEAD + size <= |fm| && fm[HEAD..HEAD + size] <= app
      ensures r == Done ==> power + size >= old(power)
      ensures r == Lost ==> old(power) <= size
      ensures old(power) > size && AlignUp(size, CHUNK) <= |app| && AlignUp(size, CHUNK) <= blank ==> r == Done
    {
      hide AlignUp, Aligned;
      copied := 0;
      ghost var first := power;
      ChunksStart(fm);
      AlignUpIs(size, CHUNK);
      while copied < size
        invariant copied <= AlignUp(size, CHUNK) && Aligned(copied, CHUNK) && |app| == old(|app|)
        invariant copied <= |app| && app[..copied] == fm[HEAD..HEAD + copied]
        invariant forall i | copied <= i < |app| && i < blank :: app[i] == ERASED
        invariant power <= first && (copied < size ==> power + copied >= first) && power + size >= first
      {
        ChunkStep(copied, size);
        if HEAD + copied + CHUNK > |fm| {
          return Failed(ReadError), copied;
        }
        r := CopyChunk(copied, blank);
        if r == Lost {
          return;
        }
        if r != Done {
          return Failed(CopyFailed), copied;
        }
        AlignedNext(copied);
        copied := copied + CHUNK;
      }
      AlignUpLeast(size, copied, CHUNK);
      Part(fm, HEAD, HEAD + copied, HEAD, HEAD + size);
      assert app[..size] == app[..copied][..size];
      r := Done;
    }

    /** Marks the image as installed: its head block is erased and written again. */
    method CopyVersion() returns (r: Status)
      requires Valid() && |fm| >= HEAD
      modifies this`fm, this`power
      ensures r == Done ==> fm == Marked(old(fm)) && old(power) >= 2 && power == old(power) - 2
      ensures r == Lost ==> power == 0 && old(power) <= 1 && (fm == old(fm) || !Verified(fm, names))
      ensures r.Failed? ==> |fm| < GRANULARITY && fm == old(fm)
      ensures |fm| == old(|fm|)
    {
      hide Crc.Generated, FromLe, SizeAt, Le, AlignUp, Aligned, Crc.Crc;
      if |fm| < GRANULARITY {
        return Failed(ReadError);
      }
      var cache := fm[..GRANULARITY];
      cache := cache[..CURRENT] + cache[DOWNLOAD..DOWNLOAD + VERSION] + cache[CURRENT + VERSION..];
      var crc := Crc.RtFotaCrc(tab, cache[..HEAD_CRC]);
      cache := cache[..HEAD_CRC] + Le(crc) + cache[HEAD..];
      MarkedBlock(fm);
      if power == 0 {
        return Lost;
      }
      power := power - 1;
      fm := Blank(GRANULARITY) + fm[GRANULARITY..];
      if power == 0 {
        BlankIsNotVerified(fm, names);
        return Lost;
      }
      power := power - 1;
      ClearedBlank(cache);
      assert fm[..GRANULARITY] == Blank(GRANULARITY);
      fm := Cleared(fm[..GRANULARITY], cache) + fm[GRANULARITY..];
      r := Done;
    }

    /** One boot: an image that waits is installed and marked. Wherever power fails, the next boot finds
        the image still waiting, or installed. Says whether an upgrade was done. */
    method Boot(ghost image: seq<Byte>) returns (upgraded: bool)
      requires Valid() && Safe(fm, app, names, image)
      modifies this
      ensures Valid() && Safe(fm, app, names, image) && |fm| == old(|fm|) && |app| == old(|app|)
      ensures !old(Pending(fm, names)) ==> fm == old(fm) && app == old(app) && !upgraded
      ensures upgraded ==> old(Pending(fm, names) && PlainImage(fm))
      ensures old(Pending(fm, names) && Suits(fm, app, power)) ==>
                upgraded && Installed(app, image) && fm == Marked(old(fm))
    {
      hide Crc.Generated, Crc.FotaCrc, FromLe, SizeAt, Le, AlignUp, Aligned, LowNibble, CString, Marked, Fits, Crc.Crc,
           Target, NamesFit;
      ghost var start := fm;
      upgraded := false;
      var r := FwVerify();
      if r == Done {
        HeadFields(fm);
        if Differs(head) {
          r := Upgrade();
          if r == Done {
            upgraded := true;
            MarkedIsVerified(fm, names);
            r := CopyVersion();
          }
        }
      }
    }

    /** Any number of boots, each with power for some number of flash operations. */
    method Boots(ghost image: seq<Byte>, powers: seq<nat>)
      requires Valid() && Safe(fm, app, names, image)
      modifies this
      ensures Valid() && Safe(fm, app, names, image)
    {
      hide Crc.Generated, Safe;
      for i := 0 to |powers|
        invariant Valid() && Safe(fm, app, names, image)
      {
        power := powers[i];
        var _ := Boot(image);
      }
    }

    /** An uninterrupted boot installs the waiting image. If its version is terminated, no later boot
        changes anything, whatever its power; if it is not, every later boot that has enough power
        installs the same image again. */
    method BootsAfter(first: nat, powers: seq<nat>) returns (again: nat, ghost settled: (seq<Byte>, seq<Byte>))
      requires Valid() && Pending(fm, names) && Target(fm) == APP && Suits(fm, app, first)
      modifies this
      ensures Valid() && settled.0 == Marked(old(fm)) && Installed(settled.1, old(Image(fm)))
      ensures old(Terminated(fm)) ==> again == 0 && !Pending(fm, names) && (fm, app) == settled
      ensures !old(Terminated(fm)) && (forall i | 0 <= i < |powers| :: old(Suits(fm, app, powers[i]))) ==>
                again == |powers| && Pending(fm, names) && Installed(app, old(Image(fm)))
    {
      hide Crc.Generated, Crc.FotaCrc, FromLe, SizeAt, AlignUp, Differs, Marked, Terminated, Suits, Target, NamesFit;
      ghost var image := Image(fm);
      ghost var terminated := Terminated(fm);
      ghost var enough := forall i | 0 <= i < |powers| :: Suits(fm, app, powers[i]);
      MarkedAgain(fm, app, names);
      power := first;
      var _ := Boot(image);
      settled := (fm, app);
      again := 0;
      for i := 0 to |powers|
        invariant Valid() && Safe(fm, app, names, image)
        invariant terminated ==> again == 0 && !Pending(fm, names) && (fm, app) == settled
        invariant !terminated && enough ==> again == i && Pending(fm, names) && Target(fm) == APP && Image(fm) == image
        invariant !terminated && enough ==> !Terminated(fm) && Installed(app, image)
        invariant !terminated && enough ==> forall k | 0 <= k < |powers| :: Suits(fm, app, powers[k])
      {
        if !terminated && enough {
          MarkedAgain(fm, app, names);
        }
        power := powers[i];
        var upgraded := Boot(image);
        again := again + if upgraded then 1 else 0;
      }
    }
  }

  /** An image that can be installed with power for so many flash operations. */
  predicate Suits(fm: seq<Byte>, app: seq<Byte>, power: nat) {
    |fm| >= GRANULARITY && PlainImage(fm) && Fits(fm, app) && power > 3 + ImageSize(fm)
  }

  function Zeros(): (s: seq<Byte>)
    ensures |s| == HEAD && forall i | 0 <= i < HEAD :: s[i] == 0
  {
    seq(HEAD, _ => 0)
  }

  /** An image that has been installed and marked waits no longer exactly if its version is terminated
      within its field. */
  lemma MarkedSettles(fm: seq<Byte>, names: set<Name>)
    requires Verified(fm, names) && NamesFit(names)
    ensures Pending(Marked(fm), names) <==> !Terminated(fm)
  {
    hide Crc.FotaCrc, FromLe, SizeAt, AlignUp, CString, Marked, PlainImage, Target, Terminated;
    MarkedIsVerified(fm, names);
    MarkedDiffers(fm);
  }

  /** A mark changes nothing that a further upgrade depends on. */
  lemma MarkedAgain(fm: seq<Byte>, app: seq<Byte>, names: set<Name>)
    requires Verified(fm, names) && NamesFit(names)
    ensures Pending(Marked(fm), names) <==> !Terminated(fm)
    ensures Terminated(Marked(fm)) == Terminated(fm) && Image(Marked(fm)) == Image(fm)
    ensures forall now: seq<Byte>, p | |now| == |app| :: Suits(Marked(fm), now, p) == Suits(fm, app, p)
  {
    hide Crc.FotaCrc, FromLe, SizeAt, AlignUp, CString, Marked, PlainImage, Target;
    MarkedSettles(fm, names);
    MarkedIsVerified(fm, names);
    MarkedKeeps(fm);
    forall k | DOWNLOAD <= k < DOWNLOAD + VERSION ensures Marked(fm)[k] == fm[k] {
      assert Marked(fm)[k] == Marked(fm)[..CURRENT][k] == fm[..CURRENT][k];
    }
  }

  // ---- building an image ----

  const FIELD: nat := 16

  function Field(text: seq<Byte>, n: nat): (s: seq<Byte>)
    requires |text| <= n
    ensures |s| == n && s[..|text|] == text && forall i | |text| <= i < n :: s[i] == 0
  {
    text + seq(n - |text|, _ => 0)
  }

  function SizeOf(w: Word): nat {
    w as nat
  }

  /** What goes into an image: how it is encrypted and compressed, the partition it is for, the versions,
      and the body with its sizes before and after compression. */
  datatype Package = Package(crypt: Byte, compression: Byte, name: Name, download: seq<Byte>, current: seq<Byte>,
                             raw: Word, size: Word, body: seq<Byte>)

  predicate IsPackage(p: Package) {
    && |p.name| < FIELD && (forall i | 0 <= i < |p.name| :: p.name[i] != 0)
    && |p.download| == |p.current| == VERSION && |p.body| == SizeOf(p.size)
  }

  /** The head of an image without its checksum. */
  function PackedHead(p: Package): (s: seq<Byte>)
    requires IsPackage(p)
    ensures |s| == HEAD_CRC
  {
    [0x52, 0x42, 0x4c, 0, p.crypt, p.compression] + Field([], 6) + Field(p.name, FIELD) + p.download + p.current
    + Le(Crc.FotaCrc(p.body)) + Field([], 4) + Le(p.raw) + Le(p.size)
  }

  function Packed(p: Package): seq<Byte>
    requires IsPackage(p)
  {
    AlignUpIs(|p.body|, CHUNK);
    var head := PackedHead(p);
    head + Le(Crc.FotaCrc(head)) + p.body + Blank(AlignUp(|p.body|, CHUNK) - |p.body|)
  }

  lemma PackedFields(p: Package)
    requires IsPackage(p)
    ensures var s := PackedHead(p);
            && s[..4] == RBL && s[4] == p.crypt && s[5] == p.compression
            && s[APP_NAME..APP_NAME + |p.name|] == p.name && s[APP_NAME + |p.name|] == 0
            && s[DOWNLOAD..DOWNLOAD + VERSION] == p.download && s[CURRENT..CURRENT + VERSION] == p.current
            && s[CODE_CRC..CODE_CRC + 4] == Le(Crc.FotaCrc(p.body))
            && s[RAW_SIZE..RAW_SIZE + 4] == Le(p.raw) && s[COM_SIZE..COM_SIZE + 4] == Le(p.size)
  {
    hide Crc.FotaCrc, Le;
  }

  lemma {:induction false} CStringIs(s: seq<Byte>, at: nat, n: nat)
    requires at + n < |s| && s[at + n] == 0 && forall i | at <= i < at + n :: s[i] != 0
    ensures CString(s, at) == s[at..at + n]
    decreases n
  {
    if n > 0 {
      CStringIs(s, at + 1, n - 1);
    }
  }

  lemma SizeReads(fm: seq<Byte>, at: nat, w: Word)
    requires at + 4 <= |fm| && fm[at..at + 4] == Le(w)
    ensures SizeAt(fm, at) == SizeOf(w)
  {
    hide FromLe, Le;
    RoundTrip(w);
  }

  lemma SumReads(fm: seq<Byte>, at: nat, w: Word)
    requires at + 4 <= |fm| && fm[at..at + 4] == Le(w)
    ensures WordAt(fm, at) == w
  {
    hide FromLe, Le;
    RoundTrip(w);
  }

  lemma PackedParts(p: Package)
    requires IsPackage(p)
    ensures var head, fm := PackedHead(p), Packed(p);
            && |fm| == HEAD + AlignUp(|p.body|, CHUNK) >= HEAD + |p.body| && fm[..HEAD_CRC] == head
            && fm[HEAD_CRC..HEAD] == Le(Crc.FotaCrc(head)) && fm[HEAD..HEAD + |p.body|] == p.body
  {
    hide Crc.FotaCrc, Le, AlignUp, PackedHead;
    AlignUpIs(|p.body|, CHUNK);
    var head := PackedHead(p);
    FourParts(head, Le(Crc.FotaCrc(head)), p.body, Blank(AlignUp(|p.body|, CHUNK) - |p.body|));
  }

  lemma FourParts(a: seq<Byte>, b: seq<Byte>, c: seq<Byte>, d: seq<Byte>)
    ensures var s := a + b + c + d;
            && s[..|a|] == a && s[|a|..|a| + |b|] == b && s[|a| + |b|..|a| + |b| + |c|] == c
            && |s| == |a| + |b| + |c| + |d|
  {
  }

  /** Encryption 1 is refused and encryption 2 is AES; every compression is left to a decompressor. */
  predicate IsPlain(p: Package) {
    p.crypt as nat % 16 != 1 && p.crypt as nat % 16 != 2 && p.compression as nat % 16 == 0
  }

  lemma LowNibbleIs(b: Byte)
    ensures LowNibble(b) == 0 <==> b as nat % 16 == 0
    ensures LowNibble(b) == 1 <==> b as nat % 16 == 1
    ensures LowNibble(b) == 2 <==> b as nat % 16 == 2
  {
  }

  /** For every version field and body there is an undamaged image, so both kinds of version occur. */
  lemma PackedIsVerified(p: Package, names: set<Name>)
    requires IsPackage(p) && p.name in names
    ensures var fm := Packed(p);
            && |fm| == HEAD + AlignUp(|p.body|, CHUNK) >= HEAD + |p.body|
            && Verified(fm, names) && Target(fm) == p.name && Image(fm) == p.body
            && (PlainImage(fm) <==> IsPlain(p)) && SizeAt(fm, RAW_SIZE) == SizeOf(p.raw)
            && fm[DOWNLOAD..DOWNLOAD + VERSION] == p.download && fm[CURRENT..CURRENT + VERSION] == p.current
            && (Terminated(fm) <==> 0 in p.download)
  {
    hide Crc.FotaCrc, FromLe, Le, AlignUp, PackedHead, Packed, SizeAt, WordAt, SizeOf, CString, LowNibble;
    var head, fm := PackedHead(p), Packed(p);
    PackedFields(p);
    PackedParts(p);
    HeadReads(fm, head, |p.name|);
    SumReads(fm, HEAD_CRC, Crc.FotaCrc(head));
    SumReads(fm, CODE_CRC, Crc.FotaCrc(p.body));
    SizeReads(fm, COM_SIZE, p.size);
    SizeReads(fm, RAW_SIZE, p.raw);
    CStringIs(fm[..HEAD], APP_NAME, |p.name|);
    LowNibbleIs(p.crypt);
    LowNibbleIs(p.compression);
    assert forall k | DOWNLOAD <= k < DOWNLOAD + VERSION :: fm[k] == p.download[k - DOWNLOAD];
  }

  // ---- which images are installed ----

  predicate IsText(text: seq<Byte>) {
    |text| < VERSION && forall i | 0 <= i < |text| :: text[i] != 0
  }

  /** Version fields with these texts. */
  predicate HasTexts(p: Package, download: seq<Byte>, current: seq<Byte>) {
    && IsText(download) && IsText(current)
    && p.download == Field(download, VERSION) && p.current == Field(current, VERSION)
  }

  /** An image waits if and only if the text of its version is not the one of the version installed. */
  lemma PackedIsPending(p: Package, download: seq<Byte>, current: seq<Byte>, names: set<Name>)
    requires IsPackage(p) && p.name in names && HasTexts(p, download, current)
    ensures |Packed(p)| >= HEAD && Verified(Packed(p), names)
    ensures Pending(Packed(p), names) <==> download != current
  {
    hide Packed, Verified, PlainImage, Target, AlignUp, SizeAt, Terminated, CString;
    PackedIsVerified(p, names);
    FieldText(Packed(p), DOWNLOAD, download);
    FieldText(Packed(p), CURRENT, current);
  }

  /** A text in a field of the head, and where it ends. */
  lemma FieldText(fm: seq<Byte>, at: nat, text: seq<Byte>)
    requires |fm| >= HEAD && at + VERSION <= HEAD && IsText(text) && fm[at..at + VERSION] == Field(text, VERSION)
    ensures CString(fm[..HEAD], at) == text
  {
    var s, n := fm[..HEAD], |text|;
    Part(fm, 0, HEAD, at, at + VERSION);
    assert s[at..at + VERSION] == Field(text, VERSION);
    Part(s, at, at + VERSION, at, at + n);
    assert s[at + n] == s[at..at + VERSION][n] == 0;
    forall i | at <= i < at + n ensures s[i] != 0 {
      assert s[i] == s[at..at + VERSION][i - at] == Field(text, VERSION)[..n][i - at];
    }
    CStringIs(s, at, n);
  }

  /** A boot with enough power installs an image of the application, whose erase covers it, exactly if its
      version differs from the one installed and it is plain; with the same version it changes nothing. */
  method BootWith(board: Board, p: Package, download: seq<Byte>, current: seq<Byte>) returns (upgraded: bool)
    requires board.Valid() && IsPackage(p) && HasTexts(p, download, current)
    requires p.name == [0x61, 0x70, 0x70] && p.name in board.names
    requires board.fm == Packed(p) && board.power > 3 + |p.body| > 3
    requires var padded := AlignUp(|p.body|, CHUNK);
             padded <= |board.app| && SizeOf(p.raw) <= padded <= AlignUp(SizeOf(p.raw), SECTOR)
    modifies board
    ensures upgraded <==> download != current && IsPlain(p)
    ensures upgraded ==> p.body <= board.app
    ensures download == current ==> board.app == old(board.app) && board.fm == old(board.fm)
  {
    hide Packed, Verified, PlainImage, Target, AlignUp, Terminated, CString, Crc.Generated, NamesFit, Differs, SizeAt,
         Marked, HasTexts;
    PackedIsPending(p, download, current, board.names);
    PackedIsVerified(p, board.names);
    ghost var image := if download != current then p.body else [];
    AtLeastChunk(|p.body|);
    upgraded := board.Boot(image);
  }

  lemma AtLeastChunk(n: nat)
    requires n > 0
    ensures AlignUp(n, CHUNK) >= CHUNK
  {
    AlignUpIs(n, CHUNK);
    AlignedDifference(AlignUp(n, CHUNK), 0, CHUNK);
  }

  lemma HeadReads(fm: seq<Byte>, head: seq<Byte>, n: nat)
    requires |fm| >= HEAD && fm[..HEAD_CRC] == head && n < FIELD
    ensures fm[..4] == head[..4] && fm[4] == head[4] && fm[5] == head[5]
    ensures fm[CODE_CRC..CODE_CRC + 4] == head[CODE_CRC..CODE_CRC + 4]
    ensures fm[COM_SIZE..COM_SIZE + 4] == head[COM_SIZE..COM_SIZE + 4]
    ensures fm[RAW_SIZE..RAW_SIZE + 4] == head[RAW_SIZE..RAW_SIZE + 4]
    ensures fm[DOWNLOAD..DOWNLOAD + VERSION] == head[DOWNLOAD..DOWNLOAD + VERSION]
    ensures fm[CURRENT..CURRENT + VERSION] == head[CURRENT..CURRENT + VERSION]
    ensures fm[..HEAD][APP_NAME..APP_NAME + n] == head[APP_NAME..APP_NAME + n]
    ensures fm[..HEAD][APP_NAME + n] == head[APP_NAME + n]
  {
    Part(fm, 0, HEAD_CRC, 0, 4);
    Part(fm, 0, HEAD_CRC, CODE_CRC, CODE_CRC + 4);
    Part(fm, 0, HEAD_CRC, COM_SIZE, COM_SIZE + 4);
    Part(fm, 0, HEAD_CRC, RAW_SIZE, RAW_SIZE + 4);
    Part(fm, 0, HEAD_CRC, DOWNLOAD, DOWNLOAD + VERSION);
    Part(fm, 0, HEAD_CRC, CURRENT, CURRENT + VERSION);
    Part(fm, 0, HEAD_CRC, APP_NAME, APP_NAME + n);
    Part(fm, 0, HEAD, APP_NAME, APP_NAME + n);
    assert fm[4] == fm[..HEAD_CRC][4] && fm[5] == fm[..HEAD_CRC][5];
    assert fm[..HEAD][APP_NAME + n] == fm[APP_NAME + n] == fm[..HEAD_CRC][APP_NAME + n];
  }

  lemma TerminatorFound(download: seq<Byte>)
    ensures 0 in download <==> exists i :: 0 <= i < |download| && download[i] == 0
  {
  }

  /** For instance a one-byte image whose version has no terminator: it verifies, waits, can be
      installed, and still waits when it has been installed and marked. */
  lemma UnterminatedExists(names: set<Name>, app: seq<Byte>, power: nat)
    requires APP in names && NamesFit(names) && |app| >= CHUNK && power > 4
    ensures exists fm :: Pending(fm, names) && Target(fm) == APP && !Terminated(fm) && Suits(fm, app, power)
                         && Pending(Marked(fm), names)
  {
    hide Verified, Packed, Marked, Target, PlainImage, Terminated, Differs, AlignUp, SizeAt;
    var download := seq(VERSION, _ => 0x31 as Byte);
    var p := Package(0, 0, APP, download, download, 1, 1, [7]);
    var fm := Packed(p);
    PackedIsVerified(p, names);
    OneByteFits(CHUNK);
    OneByteFits(SECTOR);
    MarkedSettles(fm, names);
    MarkedIsVerified(fm, names);
    TerminatorFound(download);
    MarkedAgain(fm, app, names);
    MarkedSettles(Marked(fm), names);
    assert Suits(fm, app, power);
  }

  lemma OneByteFits(n: nat)
    requires n > 0
    ensures AlignUp(1, n) == n
  {
    AlignUpIs(1, n);
    assert Aligned(n, n);
    AlignUpLeast(1, n, n);
    AlignedDifference(AlignUp(1, n), 0, n);
  }

  lemma ChunksStart(fm: seq<Byte>)
    requires |fm| >= HEAD
    ensures Aligned(0, CHUNK) && AlignUp(0, CHUNK) == 0 && Crc.Crc(0xffff_ffff, fm[HEAD..HEAD + 0]) == 0xffff_ffff
  {
    AlignUpLeast(0, 0, CHUNK);
  }

  lemma AlignedNext(pos: nat)
    requires Aligned(pos, CHUNK)
    ensures Aligned(pos + CHUNK, CHUNK)
  {
  }

  /** One chunk on, the position is at another chunk or at the end. */
  lemma ChunkStep(pos: nat, size: nat)
    requires Aligned(pos, CHUNK) && pos < size
    ensures pos + CHUNK <= AlignUp(size, CHUNK)
    ensures var next := if pos + CHUNK > size then size else pos + CHUNK;
            AlignUp(next, CHUNK) == pos + CHUNK && (Aligned(next, CHUNK) || next == size)
  {
    hide AlignUp;
    AlignUpIs(size, CHUNK);
    AlignedDifference(AlignUp(size, CHUNK), pos, CHUNK);
    AlignedNext(pos);
    var next := if pos + CHUNK > size then size else pos + CHUNK;
    AlignUpIs(next, CHUNK);
    AlignUpLeast(next, pos + CHUNK, CHUNK);
    AlignedDifference(AlignUp(next, CHUNK), pos, CHUNK);
  }

  lemma HeadFields(fm: seq<Byte>)
    requires |fm| >= HEAD
    ensures SizeAt(fm[..HEAD], RAW_SIZE) == SizeAt(fm, RAW_SIZE) && SizeAt(fm[..HEAD], COM_SIZE) == SizeAt(fm, COM_SIZE)
    ensures PlainImage(fm[..HEAD]) == PlainImage(fm) && Differs(fm[..HEAD]) == Differs(fm)
    ensures Target(fm[..HEAD]) == Target(fm)
  {
    hide FromLe, LowNibble, CString;
    assert fm[..HEAD][RAW_SIZE..RAW_SIZE + 4] == fm[RAW_SIZE..RAW_SIZE + 4];
    assert fm[..HEAD][COM_SIZE..COM_SIZE + 4] == fm[COM_SIZE..COM_SIZE + 4];
    assert fm[..HEAD][..HEAD] == fm[..HEAD];
  }

  lemma BlankIsNotVerified(fm: seq<Byte>, names: set<Name>)
    requires |fm| >= GRANULARITY && fm[..GRANULARITY] == Blank(GRANULARITY)
    ensures !Verified(fm, names)
  {
    hide Crc.FotaCrc, FromLe, SizeAt, AlignUp;
    assert fm[..4][0] == fm[..GRANULARITY][0];
  }

  /** The head block as it is rewritten. */
  lemma MarkedBlock(fm: seq<Byte>)
    requires |fm| >= GRANULARITY
    ensures var cache := fm[..GRANULARITY];
            var copied := cache[..CURRENT] + cache[DOWNLOAD..DOWNLOAD + VERSION] + cache[CURRENT + VERSION..];
            copied[..HEAD_CRC] + Le(Crc.FotaCrc(copied[..HEAD_CRC])) + copied[HEAD..] + fm[GRANULARITY..] == Marked(fm)
  {
    hide Crc.FotaCrc, Le;
    var cache := fm[..GRANULARITY];
    var copied := cache[..CURRENT] + cache[DOWNLOAD..DOWNLOAD + VERSION] + cache[CURRENT + VERSION..];
    var head := fm[..CURRENT] + fm[DOWNLOAD..DOWNLOAD + VERSION] + fm[CODE_CRC..HEAD_CRC];
    forall k | 0 <= k < HEAD_CRC ensures copied[..HEAD_CRC][k] == head[k] {
      var from := if CURRENT <= k < CODE_CRC then DOWNLOAD + (k - CURRENT) else k;
      assert copied[..HEAD_CRC][k] == copied[k] == cache[from] == fm[from];
      assert head[k] == fm[from];
    }
    assert copied[..HEAD_CRC] == head;
    assert copied[HEAD..] == fm[HEAD..GRANULARITY];
    assert fm[HEAD..GRANULARITY] + fm[GRANULARITY..] == fm[HEAD..];
  }
}