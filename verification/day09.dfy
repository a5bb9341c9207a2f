/**
 * Day 9, "Disk Fragmenter": a disk map alternates file lengths and gap
 * lengths. Part 1 fills each free block, from the left, with the last file
 * block still on the disk; part 2 moves whole files, highest id first, into
 * the leftmost gap before them that can hold them. Each answer is the
 * checksum: the sum of position times file id over the occupied blocks.
 */
module DiskFragmenter {

  import opened Options

  function Repeat<T>(x: T, n: nat): (r: seq<T>)
    ensures |r| == n && forall k | 0 <= k < n :: r[k] == x
  {
    if n == 0 then [] else [x] + Repeat(x, n - 1)
  }

  function Sum(s: seq<nat>): nat {
    if |s| == 0 then 0 else s[0] + Sum(s[1..])
  }

  // ---------------------------------------------------------------- Block layout

  /**
   * The blocks of the disk map from chunk `id` on: each chunk is a file of
   * `dm[0]` blocks with that id, then `dm[1]` free blocks, a missing last
   * gap counting as none. The expanded disk has as many blocks as the
   * digits of the disk map add up to.
   */
  function Layout(dm: seq<nat>, id: nat): (r: seq<Option<nat>>)
    ensures |r| == Sum(dm)
    decreases |dm|
  {
    if |dm| == 0 then []
    else if |dm| == 1 then
      assert Sum(dm) == dm[0] + Sum(dm[1..]);
      Repeat(Some(id), dm[0])
    else
      assert dm[1..][1..] == dm[2..];
      assert Sum(dm) == dm[0] + dm[1] + Sum(dm[2..]);
      Repeat(Some(id), dm[0]) + Repeat(None, dm[1]) + Layout(dm[2..], id + 1)
  }

  /** The file ids of the occupied blocks, with multiplicity. */
  function FileIds(d: seq<Option<nat>>): multiset<nat> {
    if |d| == 0 then multiset{}
    else (if d[0].Some? then multiset{d[0].value} else multiset{}) + FileIds(d[1..])
  }

  lemma {:induction false} FileIdsAppend(a: seq<Option<nat>>, b: seq<Option<nat>>)
    ensures FileIds(a + b) == FileIds(a) + FileIds(b)
    decreases |a|
  {
    if |a| > 0 {
      var head := if a[0].Some? then multiset{a[0].value} else multiset{};
      assert (a + b)[0] == a[0] && (a + b)[1..] == a[1..] + b;
      FileIdsAppend(a[1..], b);
      assert FileIds(a + b) == head + FileIds(a[1..] + b);
      assert FileIds(a) == head + FileIds(a[1..]);
    } else {
      assert a + b == b;
    }
  }

  lemma {:induction false} FileIdsRepeat(x: Option<nat>, n: nat)
    ensures FileIds(Repeat(x, n)) == if x.Some? then multiset{}[x.value := n] else multiset{}
    decreases n
  {
    if n > 0 {
      assert Repeat(x, n)[1..] == Repeat(x, n - 1);
      FileIdsRepeat(x, n - 1);
    }
  }

  /** File id k + id has exactly dm[2k] blocks in the layout, and no other id has any. */
  lemma {:induction false} LayoutSpec(dm: seq<nat>, id: nat, x: nat)
    ensures FileIds(Layout(dm, id))[x] == if id <= x && 2 * (x - id) < |dm| then dm[2 * (x - id)] else 0
    decreases |dm|
  {
    if |dm| == 1 {
      FileIdsRepeat(Some(id), dm[0]);
    } else if |dm| >= 2 {
      var rest := dm[2..];
      LayoutSpec(rest, id + 1, x);
      FileIdsRepeat(Some(id), dm[0]);
      FileIdsRepeat(None, dm[1]);
      FileIdsAppend(Repeat(Some(id), dm[0]), Repeat(None, dm[1]));
      FileIdsAppend(Repeat(Some(id), dm[0]) + Repeat(None, dm[1]), Layout(rest, id + 1));
      if id < x && 2 * (x - id) < |dm| {
        assert 2 * (x - (id + 1)) + 2 == 2 * (x - id);
        assert dm[2 * (x - id)] == rest[2 * (x - (id + 1))];
      }
    }
  }

  // ---------------------------------------------------------------- Part 1

  /**
   * The compacted disk as a reference: take the leftmost block if it is a
   * file; otherwise drop trailing free blocks and move the last file block
   * into the gap.
   */
  function Compact(d: seq<Option<nat>>): seq<nat>
    decreases |d|
  {
    if |d| == 0 then []
    else if d[0].Some? then [d[0].value] + Compact(d[1..])
    else if d[|d| - 1].None? then Compact(d[..|d| - 1])
    else [d[|d| - 1].value] + Compact(d[1..|d| - 1])
  }

  lemma {:induction false} FileIdsSnoc(a: seq<Option<nat>>, x: Option<nat>)
    ensures FileIds(a + [x]) == FileIds(a) + (if x.Some? then multiset{x.value} else multiset{})
  {
    FileIdsAppend(a, [x]);
    assert [x][1..] == [];
  }

  /** Compaction keeps every file block exactly once. */
  lemma {:induction false} CompactKeepsBlocks(d: seq<Option<nat>>)
    ensures multiset(Compact(d)) == FileIds(d)
    decreases |d|
  {
    if |d| > 0 {
      if d[0].Some? {
        CompactKeepsBlocks(d[1..]);
      } else if d[|d| - 1].None? {
        CompactDropsTrailingGap(d);
      } else {
        CompactFillsGap(d);
      }
    }
  }

  lemma {:induction false} CompactDropsTrailingGap(d: seq<Option<nat>>)
    requires |d| > 0 && d[0].None? && d[|d| - 1].None?
    ensures multiset(Compact(d)) == FileIds(d)
    decreases |d|, 0
  {
    var init := d[..|d| - 1];
    CompactKeepsBlocks(init);
    assert d == init + [d[|d| - 1]];
    FileIdsSnoc(init, d[|d| - 1]);
  }

  lemma {:induction false} CompactFillsGap(d: seq<Option<nat>>)
    requires |d| > 0 && d[0].None? && d[|d| - 1].Some?
    ensures multiset(Compact(d)) == FileIds(d)
    decreases |d|, 0
  {
    var mid := d[1..|d| - 1];
    var last := d[|d| - 1];
    CompactKeepsBlocks(mid);
    assert Compact(d) == [last.value] + Compact(mid);
    assert d[1..] == mid + [last];
    FileIdsSnoc(mid, last);
    assert FileIds(d) == FileIds(d[1..]);
  }

  /** The checksum of blocks placed from position `from`: position times id. */
  function Weighted(ids: seq<nat>, from: nat): nat
    decreases |ids|
  {
    if |ids| == 0 then 0 else from * ids[0] + Weighted(ids[1..], from + 1)
  }

  lemma {:induction false} WeightedAppend(a: seq<nat>, x: nat, from: nat)
    ensures Weighted(a + [x], from) == Weighted(a, from) + (from + |a|) * x
    decreases |a|
  {
    if |a| > 0 {
      assert (a + [x])[1..] == a[1..] + [x];
      WeightedAppend(a[1..], x, from + 1);
    }
  }

  /** A file block at the left end stays where it is. */
  lemma {:induction false} CompactFromFront(disk: seq<Option<nat>>, left: nat, right: nat)
    requires left < right <= |disk| && disk[left].Some?
    ensures Compact(disk[left..right]) == [disk[left].value] + Compact(disk[left + 1..right])
  {
    var d := disk[left..right];
    assert d[0] == disk[left] && d[1..] == disk[left + 1..right];
  }

  /** A free block at the left end: a free block at the right end is dropped, a file block there fills the gap. */
  lemma {:induction false} CompactFromBack(disk: seq<Option<nat>>, left: nat, right: nat)
    requires left < right <= |disk| && disk[left].None?
    ensures disk[right - 1].None? ==> Compact(disk[left..right]) == Compact(disk[left..right - 1])
    ensures disk[right - 1].Some? ==> left + 1 <= right - 1
                                      && Compact(disk[left..right]) == [disk[right - 1].value] + Compact(disk[left + 1..right - 1])
  {
    var d := disk[left..right];
    assert d[0] == disk[left] && d[|d| - 1] == disk[right - 1];
    if disk[right - 1].None? {
      assert d[..|d| - 1] == disk[left..right - 1];
    } else {
      assert |d| >= 2;
      var mid, inner := d[1..|d| - 1], disk[left + 1..right - 1];
      forall t | 0 <= t < |mid| ensures mid[t] == inner[t] {
        assert d[1 + t] == disk[left + 1 + t];
      }
      assert mid == inner;
    }
  }

  lemma {:induction false} PlacedStep(placed: seq<nat>, v: nat, tail: seq<nat>)
    ensures placed + ([v] + tail) == (placed + [v]) + tail
  {
  }

  /** What the two-pointer loop keeps: the blocks placed so far followed by the compacted window are the compacted disk. */
  ghost predicate CompactInv(disk: seq<Option<nat>>, left: nat, right: nat, placed: seq<nat>, checksum: nat) {
    && left <= right <= |disk| && |placed| == left
    && placed + Compact(disk[left..right]) == Compact(disk)
    && checksum == Weighted(placed, 0)
  }

  /** Placing the block `v` at position `left` keeps the invariant. */
  lemma {:induction false} CompactInvPlace(disk: seq<Option<nat>>, left: nat, right: nat, right': nat,
                                           placed: seq<nat>, checksum: nat, v: nat)
    requires CompactInv(disk, left, right, placed, checksum) && left < right' <= right
    requires Compact(disk[left..right]) == [v] + Compact(disk[left + 1..right'])
    ensures CompactInv(disk, left + 1, right', placed + [v], checksum + left * v)
  {
    PlacedStep(placed, v, Compact(disk[left + 1..right']));
    WeightedAppend(placed, v, 0);
  }

  /**
   * One pass of the two-pointer loop: a file block at `left` stays and
   * `left` advances; a free block at `left` takes the block at `right - 1`,
   * which is dropped if it is free too. The window always shrinks.
   */
  method CompactStep(disk: seq<Option<nat>>, left: nat, right: nat, ghost placed: seq<nat>, checksum: nat)
    returns (left': nat, right': nat, ghost placed': seq<nat>, checksum': nat)
    requires CompactInv(disk, left, right, placed, checksum) && left < right
    ensures CompactInv(disk, left', right', placed', checksum')
    ensures left <= left' && right' <= right && right' - left' < right - left
  {
    left', right', placed', checksum' := left, right, placed, checksum;
    var block := disk[left];
    if block.None? {
      right' := right - 1;
      block := disk[right'];
      CompactFromBack(disk, left, right);
    } else {
      CompactFromFront(disk, left, right);
    }
    if block.Some? {
      CompactInvPlace(disk, left, right, right', placed, checksum, block.value);
      checksum' := checksum + left * block.value;
      placed' := placed + [block.value];
      left' := left + 1;
    }
  }

  /**
   * The two-pointer loop over a disk: a file block at `left` stays; a free
   * block at `left` pulls the block at `right - 1`, retrying while that one
   * is free too. The checksum is that of the compacted disk.
   */
  method CompactChecksum(disk: seq<Option<nat>>) returns (checksum: nat)
    ensures checksum == Weighted(Compact(disk), 0)
  {
    var left: nat, right: nat := 0, |disk|;
    checksum := 0;
    ghost var placed: seq<nat> := [];
    assert disk[left..right] == disk;
    while left < right
      invariant CompactInv(disk, left, right, placed, checksum)
      decreases right - left
    {
      left, right, placed, checksum := CompactStep(disk, left, right, placed, checksum);
    }
    assert Compact(disk[left..right]) == [];
    assert placed == Compact(disk);
  }

  /** `solve_part_1`: the two-pointer loop over the disk map's block layout. */
  method SolvePart1(dm: seq<nat>) returns (checksum: nat)
    ensures checksum == Weighted(Compact(Layout(dm, 0)), 0)
  {
    checksum := CompactChecksum(Layout(dm, 0));
  }

  // ---------------------------------------------------------------- Part 2

  /** A file's original range [start, start + len). */
  datatype File = File(id: nat, start: nat, len: nat)

  /** A free range [start, end); its start moves right as files fill it. */
  datatype Span = Span(start: nat, end: nat)

  /**
   * The loop that builds `files` and `spaces` from chunk `id` on, with `i`
   * the position reached so far.
   */
  function Ranges(dm: seq<nat>, id: nat, i: nat): (r: (seq<File>, seq<Span>))
    ensures |r.0| == |r.1| == (|dm| + 1) / 2 && WellFormed(r.1)
    ensures |r.1| > 0 ==> r.1[0].start >= i
    decreases |dm|
  {
    if |dm| == 0 then ([], [])
    else
      var gap := if |dm| >= 2 then dm[1] else 0;
      var file := File(id, i, dm[0]);
      var space := Span(i + dm[0], i + dm[0] + gap);
      var rest := if |dm| >= 2 then Ranges(dm[2..], id + 1, i + dm[0] + gap) else ([], []);
      ([file] + rest.0, [space] + rest.1)
  }

  /** File k has id `id + k` and length `dm[2k]`. */
  lemma {:induction false} RangesFiles(dm: seq<nat>, id: nat, i: nat)
    ensures forall k | 0 <= k < |Ranges(dm, id, i).0| ::
              Ranges(dm, id, i).0[k].id == id + k && Ranges(dm, id, i).0[k].len == dm[2 * k]
    decreases |dm|
  {
    if |dm| >= 2 {
      var gap := dm[1];
      RangesFiles(dm[2..], id + 1, i + dm[0] + gap);
      var files := Ranges(dm, id, i).0;
      var files' := Ranges(dm[2..], id + 1, i + dm[0] + gap).0;
      assert files == [File(id, i, dm[0])] + files';
      forall k {:trigger files[k]} | 1 <= k < |files| ensures files[k].id == id + k && files[k].len == dm[2 * k] {
        assert files[k] == files'[k - 1];
        assert dm[2 * k] == dm[2..][2 * (k - 1)];
      }
    }
  }

  /**
   * The ranges tile the disk from position `i`: each span starts where its
   * file ends and ends where the next file starts.
   */
  lemma {:induction false} RangesAdjacent(dm: seq<nat>, id: nat, i: nat)
    ensures var (files, spaces) := Ranges(dm, id, i);
            && (forall k | 0 <= k < |files| :: files[k].start + files[k].len == spaces[k].start)
            && (forall k | 0 <= k < |files| - 1 :: spaces[k].end == files[k + 1].start)
            && (|files| > 0 ==> files[0].start == i)
  {
    SpacesFollowFiles(dm, id, i);
    FilesFollowSpaces(dm, id, i);
  }

  /** Each span starts where its file ends. */
  lemma {:induction false} SpacesFollowFiles(dm: seq<nat>, id: nat, i: nat)
    ensures var (files, spaces) := Ranges(dm, id, i);
            forall k | 0 <= k < |files| :: files[k].start + files[k].len == spaces[k].start
    decreases |dm|
  {
    if |dm| >= 2 {
      var gap := dm[1];
      SpacesFollowFiles(dm[2..], id + 1, i + dm[0] + gap);
      var (files, spaces) := Ranges(dm, id, i);
      var (files', spaces') := Ranges(dm[2..], id + 1, i + dm[0] + gap);
      assert files == [File(id, i, dm[0])] + files';
      assert spaces == [Span(i + dm[0], i + dm[0] + gap)] + spaces';
      forall k | 1 <= k < |files| ensures files[k].start + files[k].len == spaces[k].start {
        assert spaces[k] == spaces'[k - 1] && files[k] == files'[k - 1];
        assert 0 <= k - 1 < |files'|;
        assert files' == Ranges(dm[2..], id + 1, i + dm[0] + gap).0;
        assert files'[k - 1].start + files'[k - 1].len == spaces'[k - 1].start;
      }
    }
  }

  /** Each span ends where the next file starts, and the first file starts at i. */
  lemma {:induction false} FilesFollowSpaces(dm: seq<nat>, id: nat, i: nat)
    ensures var (files, spaces) := Ranges(dm, id, i);
            && (forall k | 0 <= k < |files| - 1 :: spaces[k].end == files[k + 1].start)
            && (|files| > 0 ==> files[0].start == i)
    decreases |dm|
  {
    if |dm| >= 2 {
      var gap := dm[1];
      FilesFollowSpaces(dm[2..], id + 1, i + dm[0] + gap);
      var (files, spaces) := Ranges(dm, id, i);
      var (files', spaces') := Ranges(dm[2..], id + 1, i + dm[0] + gap);
      assert files == [File(id, i, dm[0])] + files';
      assert spaces == [Span(i + dm[0], i + dm[0] + gap)] + spaces';
      forall k | 1 <= k < |files| - 1 ensures spaces[k].end == files[k + 1].start {
        assert spaces[k] == spaces'[k - 1] && files[k + 1] == files'[k];
      }
      if |files| > 1 {
        assert files[1] == files'[0];
      }
    }
  }

  /** The sum of the positions in [start, start + len): `range.sum()`. */
  function RangeSum(start: nat, len: nat): nat
    decreases len
  {
    if len == 0 then 0 else start + RangeSum(start + 1, len - 1)
  }

  lemma {:induction false} RangeSumClosedForm(start: nat, len: nat)
    ensures 2 * RangeSum(start, len) == len * (2 * start + len - 1)
    decreases len
  {
    if len > 0 {
      RangeSumClosedForm(start + 1, len - 1);
    }
  }

  /** The spans `take_while` keeps: the first k spaces all end at or before `limit`. */
  predicate EndsBy(spaces: seq<Span>, k: nat, limit: nat) {
    forall j | 0 <= j < k && j < |spaces| :: spaces[j].end <= limit
  }

  /**
   * `take_while(end <= file.start).find(len >= file.len)`: the leftmost
   * span among those ending by the file's start that is long enough.
   */
  function FindSpace(spaces: seq<Span>, file: File, from: nat): (r: Option<nat>)
    requires from <= |spaces|
    ensures r.Some? ==> from <= r.value < |spaces|
    decreases |spaces| - from
  {
    if from == |spaces| || spaces[from].end > file.start then None
    else if spaces[from].end - spaces[from].start >= file.len then Some(from)
    else FindSpace(spaces, file, from + 1)
  }

  /**
   * The span found is the first long enough among those ending by the
   * file's start, and none is found only when no such span is long enough.
   */
  lemma {:induction false} FindSpaceSpec(spaces: seq<Span>, file: File, from: nat)
    requires from <= |spaces| && EndsBy(spaces, from, file.start)
    ensures var r := FindSpace(spaces, file, from);
      && (r.Some? ==> && EndsBy(spaces, r.value + 1, file.start)
                      && spaces[r.value].end - spaces[r.value].start >= file.len
                      && forall j | from <= j < r.value :: spaces[j].end - spaces[j].start < file.len)
      && (r.None? ==> forall j | from <= j < |spaces| && EndsBy(spaces, j + 1, file.start)
                        :: spaces[j].end - spaces[j].start < file.len)
    decreases |spaces| - from
  {
    if from < |spaces| && spaces[from].end <= file.start && spaces[from].end - spaces[from].start < file.len {
      FindSpaceSpec(spaces, file, from + 1);
    }
  }

  /** Every span is a range, and each ends at or before any later one starts: the spans are ordered and disjoint. */
  predicate WellFormed(spaces: seq<Span>) {
    && (forall k | 0 <= k < |spaces| :: spaces[k].start <= spaces[k].end)
    && (forall a, b | 0 <= a < b < |spaces| :: spaces[a].end <= spaces[b].start)
  }

  /** Filling the front of a span long enough for the file leaves the spans well formed: ordered and disjoint. */
  lemma {:induction false} ShrinkKeepsWellFormed(spaces: seq<Span>, k: nat, len: nat)
    requires WellFormed(spaces) && k < |spaces| && spaces[k].end - spaces[k].start >= len
    ensures WellFormed(spaces[k := Span(spaces[k].start + len, spaces[k].end)])
  {
  }

  /** Where a file ends up: its new start. */
  datatype Placement = Placement(id: nat, start: nat, len: nat)

  /** A placed file's share of the checksum: its id times the sum of the positions it covers. */
  function Contribution(p: Placement): nat {
    p.id * RangeSum(p.start, p.len)
  }

  /**
   * One pass of the loop body: the leftmost span found for the file takes
   * it at its front and shrinks by its length; with no such span the file
   * stays where it is. Either way the file keeps its id and length and
   * never moves right, and a moved file lands wholly before its old start.
   */
  function Place(spaces: seq<Span>, file: File): (r: (Placement, seq<Span>))
    requires WellFormed(spaces)
    ensures WellFormed(r.1) && |r.1| == |spaces|
    ensures r.0.id == file.id && r.0.len == file.len
    ensures r.0.start == file.start || r.0.start + r.0.len <= file.start
  {
    FindSpaceSpec(spaces, file, 0);
    match FindSpace(spaces, file, 0)
    case Some(k) =>
      ShrinkKeepsWellFormed(spaces, k, file.len);
      (Placement(file.id, spaces[k].start, file.len), spaces[k := Span(spaces[k].start + file.len, spaces[k].end)])
    case None =>
      (Placement(file.id, file.start, file.len), spaces)
  }

  /**
   * The reversed `for` loop of `solve_part_2`: place the files from the
   * last to the first, adding each one's share to the checksum. It returns
   * one placement per file, and the checksum it accumulates is that of the
   * final placements.
   */
  function Move(files: seq<File>, spaces: seq<Span>): (r: (nat, seq<Placement>))
    requires WellFormed(spaces)
    ensures |r.1| == |files|
    ensures r.0 == PlacedChecksum(r.1)
    decreases |files|
  {
    if |files| == 0 then (0, [])
    else
      var step := Place(spaces, files[|files| - 1]);
      var rest := Move(files[..|files| - 1], step.1);
      PlacedChecksumSnoc(rest.1, step.0);
      (rest.0 + Contribution(step.0), rest.1 + [step.0])
  }

  /** One step of the loop: the last file is placed, then the files before it. */
  lemma {:induction false} MoveLast(files: seq<File>, spaces: seq<Span>)
    requires WellFormed(spaces) && |files| > 0
    ensures var step := Place(spaces, files[|files| - 1]);
            var rest := Move(files[..|files| - 1], step.1);
            Move(files, spaces) == (rest.0 + Contribution(step.0), rest.1 + [step.0])
  {
  }

  /** Every file keeps its id and length and either stays or lands wholly before its original start. */
  lemma {:induction false} MoveKeeps(files: seq<File>, spaces: seq<Span>)
    requires WellFormed(spaces)
    ensures forall k | 0 <= k < |files| ::
              && Move(files, spaces).1[k].id == files[k].id && Move(files, spaces).1[k].len == files[k].len
              && (|| Move(files, spaces).1[k].start == files[k].start
                  || Move(files, spaces).1[k].start + Move(files, spaces).1[k].len <= files[k].start)
    decreases |files|
  {
    if |files| > 0 {
      var init := files[..|files| - 1];
      var step := Place(spaces, files[|files| - 1]);
      MoveKeeps(init, step.1);
      MoveLast(files, spaces);
    }
  }

  /** The checksum of a set of placements: id times the sum of each file's final positions. */
  function PlacedChecksum(ps: seq<Placement>): nat {
    if |ps| == 0 then 0 else PlacedChecksum(ps[..|ps| - 1]) + Contribution(ps[|ps| - 1])
  }

  /** A placement appended last adds its file's checksum. */
  lemma {:induction false} PlacedChecksumSnoc(ps: seq<Placement>, p: Placement)
    ensures PlacedChecksum(ps + [p]) == PlacedChecksum(ps) + Contribution(p)
  {
    assert (ps + [p])[..|ps|] == ps;
  }

  /** `solve_part_2`: the checksum of where the files end up. */
  function SolvePart2(dm: seq<nat>): (r: nat)
    ensures r == PlacedChecksum(Move(Ranges(dm, 0, 0).0, Ranges(dm, 0, 0).1).1)
  {
    var ranges := Ranges(dm, 0, 0);
    Move(ranges.0, ranges.1).0
  }

  /** File k keeps id k and length dm[2k] and either stays or moves wholly to the left of where it was. */
  lemma {:induction false} Part2Placement(dm: seq<nat>)
    ensures var ranges := Ranges(dm, 0, 0);
            var placed := Move(ranges.0, ranges.1).1;
            forall k {:trigger placed[k]} | 0 <= k < |placed| ::
              && placed[k].id == k && placed[k].len == dm[2 * k]
              && (placed[k].start == ranges.0[k].start || placed[k].start + placed[k].len <= ranges.0[k].start)
  {
    var ranges := Ranges(dm, 0, 0);
    var files, spaces := ranges.0, ranges.1;
    RangesFiles(dm, 0, 0);
    MoveKeeps(files, spaces);
    PlacedLikeFiles(dm, files, Move(files, spaces).1);
  }

  /** Placements that keep each file's id and length inherit the ids and lengths the disk map gives the files. */
  lemma {:induction false} PlacedLikeFiles(dm: seq<nat>, files: seq<File>, placed: seq<Placement>)
    requires |placed| == |files| == (|dm| + 1) / 2
    requires forall k | 0 <= k < |files| :: files[k].id == k && files[k].len == dm[2 * k]
    requires forall k | 0 <= k < |files| :: placed[k].id == files[k].id && placed[k].len == files[k].len
    ensures forall k {:trigger placed[k]} | 0 <= k < |placed| :: placed[k].id == k && placed[k].len == dm[2 * k]
  {
    forall k {:trigger placed[k]} | 0 <= k < |placed|
      ensures placed[k].id == k && placed[k].len == dm[2 * k]
    {
      assert files[k].id == k && files[k].len == dm[2 * k];
    }
  }
}
