/** filesys.c: a read-only image of directory entries, inodes and 4 KB blocks, and the walk through it. */
module FileSystem {
  import opened Common
  import opened Lines

  const BLOCK_SIZE := 4096
  const BLOCKS_PER_INODE := 1023
  const FILENAME_LEN := 32
  const NUM_DENTRIES := 63

  datatype Inode = Inode(len: nat, blocks: seq<nat>)

  /** `name` is the 32-byte field; a shorter name ends in NUL. */
  datatype Dentry = Dentry(name: string, filetype: nat, inode: nat)

  /** `beyond` is what the 64 bytes after the directory table read as when taken for an entry. */
  datatype Image = Image(dentries: seq<Dentry>, beyond: Dentry, inodes: seq<Inode>, blocks: seq<string>) {
    ghost predicate Valid() {
      && |dentries| == NUM_DENTRIES && |inodes| < U32
      && |beyond.name| == FILENAME_LEN
      && (forall d :: d in dentries ==> |d.name| == FILENAME_LEN)
      && (forall i :: 0 <= i < |inodes| ==>
            |inodes[i].blocks| == BLOCKS_PER_INODE && inodes[i].len <= BLOCK_SIZE * BLOCKS_PER_INODE)
      && (forall b :: b in blocks ==> |b| == BLOCK_SIZE)
    }
  }

  // ----- A file as a sequence of bytes -----

  function Block(img: Image, n: nat): string {
    if n < |img.blocks| && |img.blocks[n]| == BLOCK_SIZE then img.blocks[n] else seq(BLOCK_SIZE, _ => '\0')
  }

  function Joined(img: Image, nums: seq<nat>): (s: string)
    ensures |s| == BLOCK_SIZE * |nums|
  {
    if nums == [] then [] else Block(img, nums[0]) + Joined(img, nums[1..])
  }

  lemma {:induction false} JoinedAt(img: Image, nums: seq<nat>, k: nat)
    requires k < BLOCK_SIZE * |nums|
    ensures Joined(img, nums)[k] == Block(img, nums[k / BLOCK_SIZE])[k % BLOCK_SIZE]
    decreases |nums|
  {
    if k >= BLOCK_SIZE {
      JoinedAt(img, nums[1..], k - BLOCK_SIZE);
    }
  }

  /** The bytes of a file: its blocks one after the other, up to its length. */
  function Contents(img: Image, inode: nat): (s: string)
    requires inode < |img.inodes| && img.inodes[inode].len <= BLOCK_SIZE * |img.inodes[inode].blocks|
    ensures |s| == img.inodes[inode].len
  {
    Joined(img, img.inodes[inode].blocks)[..img.inodes[inode].len]
  }

  /** Every block that holds bytes `from` to `to` of the file exists. */
  predicate Readable(img: Image, inode: nat, from: nat, to: nat)
    requires img.Valid() && inode < |img.inodes| && to <= img.inodes[inode].len
  {
    forall k: nat :: from <= k < to ==> img.inodes[inode].blocks[k / BLOCK_SIZE] < |img.blocks|
  }

  function Min(a: int, b: int): int {
    if a < b then a else b
  }

  /** What a read of `length` bytes at `offset` gives. */
  function Slice(img: Image, inode: nat, offset: nat, length: nat): Option<string>
    requires img.Valid()
  {
    if inode >= |img.inodes| || offset >= img.inodes[inode].len then None
    else
      var end := offset + Min(length, img.inodes[inode].len - offset);
      if Readable(img, inode, offset, end) then Some(Contents(img, inode)[offset..end]) else None
  }

  lemma ByteOf(img: Image, inode: nat, block: nat, byte: nat)
    requires img.Valid() && inode < |img.inodes| && byte < BLOCK_SIZE
    requires BLOCK_SIZE * block + byte < img.inodes[inode].len
    ensures var k := BLOCK_SIZE * block + byte; var num := img.inodes[inode].blocks[block];
      && k / BLOCK_SIZE == block
      && (num < |img.blocks| ==> Contents(img, inode)[k] == img.blocks[num][byte])
  {
    JoinedAt(img, img.inodes[inode].blocks, BLOCK_SIZE * block + byte);
  }

  /** Byte k of a file is byte k mod 4096 of its block k / 4096. */
  lemma ContentsAt(img: Image, inode: nat, k: nat)
    requires img.Valid() && inode < |img.inodes| && k < img.inodes[inode].len
    requires img.inodes[inode].blocks[k / 4096] < |img.blocks|
    ensures |Contents(img, inode)| == img.inodes[inode].len
    ensures Contents(img, inode)[k] == img.blocks[img.inodes[inode].blocks[k / 4096]][k % 4096]
  {
    ByteOf(img, inode, k / 4096, k % 4096);
  }

  lemma NothingToRead(img: Image, inode: nat, from: nat)
    requires img.Valid() && inode < |img.inodes| && from <= img.inodes[inode].len
    ensures Readable(img, inode, from, from)
  {}

  lemma ReadableGrows(img: Image, inode: nat, from: nat, k: nat)
    requires img.Valid() && inode < |img.inodes| && from <= k < img.inodes[inode].len
    requires Readable(img, inode, from, k)
    ensures Readable(img, inode, from, k + 1) <==> img.inodes[inode].blocks[k / BLOCK_SIZE] < |img.blocks|
    ensures !Readable(img, inode, from, k + 1) ==>
      forall to :: k < to <= img.inodes[inode].len ==> !Readable(img, inode, from, to)
  {}

  /** How far a read from `from` gets: to `to`, or to the first byte whose block does not exist. */
  function Reach(img: Image, inode: nat, from: nat, to: nat): (k: nat)
    requires img.Valid() && inode < |img.inodes| && from <= to <= img.inodes[inode].len
    ensures from <= k <= to && Readable(img, inode, from, k)
    ensures k < to ==> img.inodes[inode].blocks[k / BLOCK_SIZE] >= |img.blocks|
    decreases if from < to then to - from else 0
  {
    if from == to || img.inodes[inode].blocks[from / BLOCK_SIZE] >= |img.blocks| then from
    else Reach(img, inode, from + 1, to)
  }

  lemma ReachIs(img: Image, inode: nat, from: nat, to: nat, k: nat)
    requires img.Valid() && inode < |img.inodes| && from <= k <= to <= img.inodes[inode].len
    requires Readable(img, inode, from, k)
    requires k < to ==> img.inodes[inode].blocks[k / BLOCK_SIZE] >= |img.blocks|
    ensures Reach(img, inode, from, to) == k
  {
    var r := Reach(img, inode, from, to);
    assert !(r < k) && !(k < r);
  }

  /** One turn of the copying loop: the byte at `k` is there exactly when its block is. */
  lemma NextByte(img: Image, inode: nat, from: nat, end: nat, k: nat, block: nat, byte: nat)
    requires img.Valid() && inode < |img.inodes| && from <= k < end <= img.inodes[inode].len
    requires Readable(img, inode, from, k) && BLOCK_SIZE * block + byte == k && byte < BLOCK_SIZE
    ensures block < BLOCKS_PER_INODE
    ensures var num := img.inodes[inode].blocks[block];
      if num < |img.blocks| then Readable(img, inode, from, k + 1) && Contents(img, inode)[k] == img.blocks[num][byte]
      else !Readable(img, inode, from, end) && Reach(img, inode, from, end) == k
  {
    hide Contents;
    ByteOf(img, inode, block, byte);
    ReadableGrows(img, inode, from, k);
    if img.inodes[inode].blocks[block] >= |img.blocks| {
      ReachIs(img, inode, from, end, k);
    }
  }

  /** The copying loop of read_data: `count` may reach past the end of the file, when the test inside
      the loop stops it. */
  method CopyBytes(img: Image, inode: nat, offset: nat, buf: array<char>, count: nat) returns (r: int)
    requires img.Valid() && inode < |img.inodes| && offset < img.inodes[inode].len
    requires Min(count, img.inodes[inode].len - offset) <= buf.Length
    modifies buf
    ensures var end := offset + Min(count, img.inodes[inode].len - offset);
      && r == (if Readable(img, inode, offset, end) then end - offset else -1)
      && forall k :: 0 <= k < buf.Length ==>
           buf[k] == if offset + k < Reach(img, inode, offset, end) then Contents(img, inode)[offset + k] else old(buf[k])
  {
    hide Contents, Readable, Reach, Block, Joined;
    ghost var end := offset + Min(count, img.inodes[inode].len - offset);
    var numBytesRead, datablockCurr, byteCurr := 0, offset / BLOCK_SIZE, offset % BLOCK_SIZE;
    var node := img.inodes[inode];
    NothingToRead(img, inode, offset);
    while numBytesRead < count
      invariant 0 <= numBytesRead <= end - offset
      invariant 0 <= byteCurr <= BLOCK_SIZE
      invariant BLOCK_SIZE * datablockCurr + byteCurr == offset + numBytesRead
      invariant Readable(img, inode, offset, offset + numBytesRead)
      invariant forall k :: 0 <= k < buf.Length ==>
        buf[k] == if k < numBytesRead then Contents(img, inode)[offset + k] else old(buf[k])
    {
      if (numBytesRead + offset) % U32 >= node.len {
        break;
      }
      if byteCurr >= BLOCK_SIZE {
        byteCurr := 0;
        datablockCurr := datablockCurr + 1;
      }
      NextByte(img, inode, offset, end, offset + numBytesRead, datablockCurr, byteCurr);
      var dataBlockNum := node.blocks[datablockCurr];
      if dataBlockNum >= |img.blocks| {
        return -1;
      }
      buf[numBytesRead] := img.blocks[dataBlockNum][byteCurr];
      byteCurr := byteCurr + 1;
      numBytesRead := numBytesRead + 1;
    }
    ReachIs(img, inode, offset, end, offset + numBytesRead);
    return numBytesRead;
  }

  /** The block that holds byte `k` of a file does not exist. */
  predicate Missing(img: Image, inode: nat, k: nat)
    requires inode < |img.inodes| && k / 4096 < |img.inodes[inode].blocks|
  {
    img.inodes[inode].blocks[k / 4096] >= |img.blocks|
  }

  lemma UnreadableIff(img: Image, inode: nat, from: nat, to: nat)
    requires img.Valid() && inode < |img.inodes| && to <= img.inodes[inode].len
    ensures !Readable(img, inode, from, to) <==>
      exists k: nat :: from <= k < to && Missing(img, inode, k)
  {
    forall k: nat | from <= k < to
      ensures Missing(img, inode, k) <==> !(img.inodes[inode].blocks[k / BLOCK_SIZE] < |img.blocks|) {}
  }

  lemma SliceCopied(after: string, before: string, whole: string, offset: nat, r: nat)
    requires |after| == |before| && r <= |after| && offset + r <= |whole|
    requires forall k :: 0 <= k < |after| ==> after[k] == if k < r then whole[offset + k] else before[k]
    ensures after[..r] == whole[offset..offset + r] && after[r..] == before[r..]
  {}

  /** read_data, for all 32-bit arguments. The sum in the clamp wraps. -1 stands for any failure; when that
      is a missing block, the buffer holds the bytes before it. */
  method ReadData(img: Image, inode: nat, offset: nat, buf: array<char>, length: nat) returns (r: int)
    requires img.Valid() && inode < U32 && offset < U32 && length < U32
    requires inode < |img.inodes| && offset < img.inodes[inode].len ==>
      Min(length, img.inodes[inode].len - offset) <= buf.Length
    modifies buf
    ensures match Slice(img, inode, offset, length)
      case None => r == -1
      case Some(bytes) => r == |bytes| <= buf.Length && buf[..r] == bytes && buf[r..] == old(buf[r..])
    ensures r == -1 <==>
      || inode >= |img.inodes| || offset >= img.inodes[inode].len
      || exists k: nat :: offset <= k < offset + Min(length, img.inodes[inode].len - offset) && Missing(img, inode, k)
    ensures r != -1 ==> r == Min(length, img.inodes[inode].len - offset)
    ensures if inode >= |img.inodes| || offset >= img.inodes[inode].len then buf[..] == old(buf[..])
      else
        var end := offset + Min(length, img.inodes[inode].len - offset);
        forall k :: 0 <= k < buf.Length ==>
          buf[k] == if offset + k < Reach(img, inode, offset, end) then Contents(img, inode)[offset + k] else old(buf[k])
  {
    hide Contents, Readable, Reach;
    if inode >= |img.inodes| {
      return -1;
    }
    var node := img.inodes[inode];
    if offset >= node.len {
      return -1;
    }
    var count := length;
    if (offset + count) % U32 > node.len {
      count := node.len - offset;
    }
    r := CopyBytes(img, inode, offset, buf, count);
    ghost var end := offset + Min(length, node.len - offset);
    UnreadableIff(img, inode, offset, end);
    if Readable(img, inode, offset, end) {
      ReachIs(img, inode, offset, end, end);
      SliceCopied(buf[..], old(buf[..]), Contents(img, inode), offset, r);
    }
  }

  // ----- The directory -----

  /** The name of an entry: the field up to its first NUL. */
  function Name(d: Dentry): string {
    Text(d.name)
  }

  /** strlen of the field, which runs on into the file type when the field has no NUL. */
  function StrLen(d: Dentry): nat {
    var n := Find(d.name, '\0');
    if n == |d.name| && d.filetype % 256 != 0 then n + 1 else n
  }

  /** What the clipping leaves of strlen is the length of the name. */
  lemma ClippedLen(d: Dentry)
    requires |d.name| == 32
    ensures |Name(d)| == if StrLen(d) - 1 >= FILENAME_LEN then FILENAME_LEN else StrLen(d)
    ensures Name(d) == d.name[..|Name(d)|]
  {}

  /** The first of `ds` named `name`, or their number. */
  function FirstNamed(ds: seq<Dentry>, name: string): (i: nat)
    ensures i <= |ds|
    ensures i < |ds| ==> Name(ds[i]) == name
    ensures forall j :: 0 <= j < i ==> Name(ds[j]) != name
  {
    if ds == [] || Name(ds[0]) == name then 0 else 1 + FirstNamed(ds[1..], name)
  }

  function Clip(name: string): string {
    if |name| > FILENAME_LEN then name[..FILENAME_LEN] else name
  }

  /** The entry's field, up to its NUL, is the first 32 bytes of the name. */
  ghost predicate Matches(d: Dentry, name: string)
    requires |d.name| == 32
  {
    var n := if |name| < 32 then |name| else 32;
    n > 0 && d.name[..n] == name[..n] && (n == 32 || d.name[n] == '\0')
  }

  /** First match over names clipped to 32 bytes. */
  function Lookup(img: Image, name: string): Option<Dentry>
    requires img.Valid()
  {
    var i := FirstNamed(img.dentries, Clip(name));
    if name == [] || i == NUM_DENTRIES then None else Some(img.dentries[i])
  }

  lemma MatchesIsName(d: Dentry, name: string)
    requires |d.name| == 32 && NulFree(name)
    ensures Matches(d, name) <==> name != [] && Name(d) == Clip(name)
  {
    var n := |Clip(name)|;
    if name != [] && d.name[..n] == Clip(name) && (n == 32 || d.name[n] == '\0') {
      forall j | 0 <= j < n ensures d.name[j] != '\0' {
        assert d.name[..n][j] == name[j];
      }
      FindIs(d.name, '\0', n);
    }
  }

  /** Lookup finds the first entry that matches, and fails exactly when none does. */
  lemma LookupIsFirstMatch(img: Image, name: string)
    requires img.Valid() && NulFree(name)
    ensures match Lookup(img, name)
      case Some(d) => exists i :: 0 <= i < NUM_DENTRIES && d == img.dentries[i] && Matches(img.dentries[i], name)
                                  && forall j :: 0 <= j < i ==> !Matches(img.dentries[j], name)
      case None => forall i :: 0 <= i < NUM_DENTRIES ==> !Matches(img.dentries[i], name)
  {
    hide Name, Clip, Matches;
    forall i | 0 <= i < NUM_DENTRIES
      ensures Matches(img.dentries[i], name) <==> name != [] && Name(img.dentries[i]) == Clip(name)
    {
      assert img.dentries[i] in img.dentries;
      MatchesIsName(img.dentries[i], name);
    }
    assert Lookup(img, name).Some? ==> Matches(img.dentries[FirstNamed(img.dentries, Clip(name))], name);
  }

  function ReadDentryByIndex(img: Image, index: nat): Option<Dentry>
    requires img.Valid()
  {
    if index >= NUM_DENTRIES then None else Some(img.dentries[index])
  }

  /** strncmp(a, b, n) == 0 */
  method SameStart(a: string, b: string, n: nat) returns (same: bool)
    requires n <= |a| && n <= |b|
    requires forall i :: 0 <= i < n ==> a[i] != '\0'
    ensures same <==> a[..n] == b[..n]
  {
    for i := 0 to n
      invariant a[..i] == b[..i]
    {
      if a[i] != b[i] || a[i] == '\0' {
        assert a[..n][i] != b[..n][i];
        return false;
      }
    }
    return true;
  }

  /** read_dentry_by_name: the loop looks at one entry too many, but a match there is refused. */
  method ReadDentryByName(img: Image, fname: string) returns (r: Option<Dentry>)
    requires img.Valid() && NulFree(fname)
    ensures r == Lookup(img, fname)
    ensures match r
      case Some(d) => exists i :: 0 <= i < NUM_DENTRIES && d == img.dentries[i] && Matches(img.dentries[i], fname)
                                  && forall j :: 0 <= j < i ==> !Matches(img.dentries[j], fname)
      case None => forall i :: 0 <= i < NUM_DENTRIES ==> !Matches(img.dentries[i], fname)
  {
    hide Matches, Name, StrLen;
    LookupIsFirstMatch(img, fname);
    var lenFilename := |fname|;
    if lenFilename <= 0 {
      return None;
    }
    if lenFilename > FILENAME_LEN {
      lenFilename := FILENAME_LEN;
    }
    assert fname[..lenFilename] == Clip(fname);
    for i := 0 to NUM_DENTRIES + 1
      invariant forall j :: 0 <= j < i && j < NUM_DENTRIES ==> Name(img.dentries[j]) != Clip(fname)
    {
      var d := if i < NUM_DENTRIES then img.dentries[i] else img.beyond;
      var dentryLen := StrLen(d);
      if dentryLen - 1 >= FILENAME_LEN {
        dentryLen := FILENAME_LEN;
      }
      ClippedLen(d);
      if dentryLen == lenFilename {
        var same := SameStart(fname, d.name, lenFilename);
        if same {
          r := ReadDentryByIndex(img, i);
          return;
        }
      }
    }
    return None;
  }
}
