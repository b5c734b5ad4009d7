/**
 The playlist: a circular doubly-linked list of song nodes with one movable
 cursor, `current`.

 Nodes live in an arena: `nodes[i].next` and `nodes[i].prev` are positions in
 the same sequence, and `current` is `None` exactly while the list is empty
 (JavaScript's `null`). A well-formed list keeps every link in range, keeps
 `next` and `prev` mutually inverse, and threads all nodes on one cycle: from
 the cursor, `|nodes|` steps forward come back to it and visit no node twice.
 */
module Playlist {
  import opened Wrappers
  import opened Counting

  datatype SongNode = SongNode(songName: string, filePath: string, next: nat, prev: nat)

  datatype CircularList = CircularList(nodes: seq<SongNode>, current: Option<nat>)

  /** A song as handed to `AddSong`, used when building a list from a catalogue. */
  datatype Track = Track(songName: string, filePath: string)

  // Links are read off the node arena alone, so that moving the cursor leaves
  // every fact about them intact.

  ghost predicate LinksInRange(nodes: seq<SongNode>) {
    forall i :: 0 <= i < |nodes| ==> nodes[i].next < |nodes| && nodes[i].prev < |nodes|
  }

  function Next(nodes: seq<SongNode>, i: nat): nat
    requires LinksInRange(nodes) && i < |nodes|
  {
    nodes[i].next
  }

  function Prev(nodes: seq<SongNode>, i: nat): nat
    requires LinksInRange(nodes) && i < |nodes|
  {
    nodes[i].prev
  }

  /** `next` and `prev` undo each other at every node. */
  ghost predicate LinksInverse(nodes: seq<SongNode>)
    requires LinksInRange(nodes)
  {
    && (forall i :: 0 <= i < |nodes| ==> Prev(nodes, Next(nodes, i)) == i)
    && (forall i :: 0 <= i < |nodes| ==> Next(nodes, Prev(nodes, i)) == i)
  }

  /** The node reached from `i` by following `next` `k` times. */
  function Walk(nodes: seq<SongNode>, i: nat, k: nat): (r: nat)
    requires LinksInRange(nodes) && i < |nodes|
    ensures r < |nodes|
    decreases k
  {
    if k == 0 then i else Next(nodes, Walk(nodes, i, k - 1))
  }

  /** The first `|nodes|` nodes met walking forward from `c`, `c` included. */
  ghost function Lap(nodes: seq<SongNode>, c: nat): (r: seq<nat>)
    requires LinksInRange(nodes) && c < |nodes|
    ensures |r| == |nodes|
  {
    seq(|nodes|, k requires 0 <= k < |nodes| => Walk(nodes, c, k))
  }

  /** Starting at `c`, one lap returns to `c` without repeating a node. */
  ghost predicate SingleCycleFrom(nodes: seq<SongNode>, c: nat)
    requires LinksInRange(nodes) && c < |nodes|
  {
    Walk(nodes, c, |nodes|) == c && Distinct(Lap(nodes, c))
  }

  ghost predicate Valid(l: CircularList) {
    && LinksInRange(l.nodes)
    && LinksInverse(l.nodes)
    && (l.current.None? <==> |l.nodes| == 0)
    && (l.current.Some? ==> l.current.value < |l.nodes| && SingleCycleFrom(l.nodes, l.current.value))
  }

  predicate NonEmpty(l: CircularList) {
    l.current.Some?
  }

  /** The song under the cursor. */
  function CurrentSong(l: CircularList): SongNode
    requires Valid(l) && NonEmpty(l)
  {
    l.nodes[l.current.value]
  }

  /** The ring read forwards from the cursor. */
  ghost function Order(l: CircularList): (r: seq<nat>)
    requires Valid(l) && NonEmpty(l)
    ensures |r| == |l.nodes| && r[0] == l.current.value
  {
    Lap(l.nodes, l.current.value)
  }

  // ---------------------------------------------------------------------------
  // Facts about walking the ring

  lemma {:induction false} WalkAdd(nodes: seq<SongNode>, i: nat, j: nat, k: nat)
    requires LinksInRange(nodes) && i < |nodes|
    ensures Walk(nodes, i, j + k) == Walk(nodes, Walk(nodes, i, j), k)
    decreases k
  {
    if k > 0 {
      WalkAdd(nodes, i, j, k - 1);
    }
  }

  /**
   Every node on the lap from `c` also starts a full lap, and that lap is the
   lap from `c` rotated by `j` places.
   */
  lemma {:induction false} CycleFromMember(nodes: seq<SongNode>, c: nat, j: nat)
    requires LinksInRange(nodes) && c < |nodes| && SingleCycleFrom(nodes, c) && j <= |nodes|
    ensures SingleCycleFrom(nodes, Walk(nodes, c, j))
    ensures Lap(nodes, Walk(nodes, c, j)) == Lap(nodes, c)[j..] + Lap(nodes, c)[..j]
  {
    var n, lap := |nodes|, Lap(nodes, c);
    var rotated := lap[j..] + lap[..j];
    forall k | 0 <= k < n
      ensures Lap(nodes, Walk(nodes, c, j))[k] == rotated[k]
    {
      WalkAdd(nodes, c, j, k);
      if j + k >= n {
        WalkAdd(nodes, c, n, j + k - n);
      }
    }
    WalkAdd(nodes, c, j, n);
    WalkAdd(nodes, c, n, j);
    DistinctRotate(lap, j);
  }

  /** The node just behind the cursor is the last one of the lap. */
  lemma {:induction false} PrevIsLastOfLap(l: CircularList)
    requires Valid(l) && NonEmpty(l)
    ensures Prev(l.nodes, l.current.value) == Walk(l.nodes, l.current.value, |l.nodes| - 1)
  {
    var c := l.current.value;
    assert Next(l.nodes, Walk(l.nodes, c, |l.nodes| - 1)) == c;
  }

  /** A walk from `c` shorter than a lap does not come back to `c`. */
  lemma {:induction false} NoEarlyReturn(nodes: seq<SongNode>, c: nat, k: nat)
    requires LinksInRange(nodes) && c < |nodes| && SingleCycleFrom(nodes, c) && 0 < k
    ensures k < |nodes| ==> Walk(nodes, c, k) != c
  {
    if k < |nodes| {
      assert Lap(nodes, c)[k] != Lap(nodes, c)[0];
    }
  }

  /** One lap from the cursor visits every node exactly once. */
  lemma {:induction false} OrderIsPermutation(l: CircularList)
    requires Valid(l) && NonEmpty(l)
    ensures Distinct(Order(l)) && Below(Order(l), |l.nodes|)
    ensures forall v :: 0 <= v < |l.nodes| ==> v in Order(l)
  {
    DistinctBelowCovers(Order(l), |l.nodes|);
  }

  // ---------------------------------------------------------------------------
  // Appending

  function Empty(): (r: CircularList)
    ensures Valid(r) && !NonEmpty(r) && |r.nodes| == 0
  {
    CircularList([], None)
  }

  /**
   Appends a song: on an empty list the new node becomes the cursor and links
   to itself; otherwise it is spliced between the tail (`current.prev`) and
   `current`, so it becomes the new tail.
   */
  function AddSong(l: CircularList, songName: string, filePath: string): (r: CircularList)
    requires Valid(l)
    ensures |r.nodes| == |l.nodes| + 1
    ensures r.nodes[|l.nodes|].songName == songName && r.nodes[|l.nodes|].filePath == filePath
    ensures !NonEmpty(l) ==>
      r.current == Some(0) && r.nodes[0].next == 0 && r.nodes[0].prev == 0
    ensures NonEmpty(l) ==>
      var c, n := l.current.value, |l.nodes|;
      var last := l.nodes[c].prev;
      && r.current == l.current
      && r.nodes[n].next == c && r.nodes[n].prev == last
      && r.nodes[c].prev == n && r.nodes[last].next == n
      && forall i :: 0 <= i < n ==>
           && r.nodes[i].songName == l.nodes[i].songName
           && r.nodes[i].filePath == l.nodes[i].filePath
           && (i != last ==> r.nodes[i].next == l.nodes[i].next)
           && (i != c ==> r.nodes[i].prev == l.nodes[i].prev)
  {
    if l.current.None? then
      CircularList([SongNode(songName, filePath, 0, 0)], Some(0))
    else
      var c, n := l.current.value, |l.nodes|;
      var last := l.nodes[c].prev;
      var linkedLast := l.nodes[last := l.nodes[last].(next := n)];
      var linkedCurrent := linkedLast[c := linkedLast[c].(prev := n)];
      CircularList(linkedCurrent + [SongNode(songName, filePath, c, last)], l.current)
  }

  /** The links after a splice, read through `Next` and `Prev`. */
  lemma {:induction false} AddSongLinks(l: CircularList, songName: string, filePath: string)
    requires Valid(l) && NonEmpty(l)
    ensures var r := AddSong(l, songName, filePath);
      var c, n := l.current.value, |l.nodes|;
      var last := Prev(l.nodes, c);
      && LinksInRange(r.nodes)
      && Next(r.nodes, n) == c && Prev(r.nodes, n) == last
      && forall i :: 0 <= i < n ==>
           && Next(r.nodes, i) == (if i == last then n else Next(l.nodes, i))
           && Prev(r.nodes, i) == (if i == c then n else Prev(l.nodes, i))
  {
  }

  /** After a splice `next` and `prev` still undo each other. */
  lemma {:induction false} AddSongInverse(l: CircularList, songName: string, filePath: string)
    requires Valid(l) && NonEmpty(l)
    ensures LinksInRange(AddSong(l, songName, filePath).nodes)
    ensures LinksInverse(AddSong(l, songName, filePath).nodes)
  {
    var r, c, n := AddSong(l, songName, filePath), l.current.value, |l.nodes|;
    var last := Prev(l.nodes, c);
    AddSongLinks(l, songName, filePath);
    forall i | 0 <= i < n + 1
      ensures Prev(r.nodes, Next(r.nodes, i)) == i && Next(r.nodes, Prev(r.nodes, i)) == i
    {
      if i < n {
        // only the tail's `next` can lead to `c`, and only `c`'s `prev` can lead to the tail
        assert Prev(l.nodes, Next(l.nodes, i)) == i && Next(l.nodes, Prev(l.nodes, i)) == i;
        assert Next(l.nodes, last) == c;
      }
    }
  }

  /**
   Two arenas whose `next` links agree everywhere except at node `t` walk alike
   from `c` for as long as the walk has not passed through `t`.
   */
  lemma {:induction false} WalkAgreesUntil(a: seq<SongNode>, b: seq<SongNode>, c: nat, t: nat, k: nat)
    requires LinksInRange(a) && LinksInRange(b) && c < |a| <= |b|
    requires forall i :: 0 <= i < |a| && i != t ==> Next(b, i) == Next(a, i)
    requires forall j :: 0 <= j < k ==> Walk(a, c, j) != t
    ensures Walk(b, c, k) == Walk(a, c, k)
  {
    if k > 0 {
      WalkAgreesUntil(a, b, c, t, k - 1);
    }
  }

  /**
   If arena `b` copies the `next` links of a valid list except that its tail
   (`current.prev`) now leads to a new node `|nodes|`, which leads back to the
   cursor, then the lap from the cursor in `b` is the old lap with the new
   node at its end.
   */
  lemma {:induction false} LapExtends(l: CircularList, b: seq<SongNode>)
    requires Valid(l) && NonEmpty(l) && LinksInRange(b) && |b| == |l.nodes| + 1
    requires forall i :: 0 <= i < |l.nodes| && i != Prev(l.nodes, l.current.value) ==> Next(b, i) == Next(l.nodes, i)
    requires Next(b, Prev(l.nodes, l.current.value)) == |l.nodes| && Next(b, |l.nodes|) == l.current.value
    ensures Lap(b, l.current.value) == Order(l) + [|l.nodes|]
    ensures Walk(b, l.current.value, |b|) == l.current.value
  {
    var a, c, n, lap := l.nodes, l.current.value, |l.nodes|, Order(l);
    var t := Prev(a, c);
    PrevIsLastOfLap(l);
    assert lap[n - 1] == t;
    forall k | 0 <= k < n
      ensures Walk(b, c, k) == lap[k]
    {
      // before the tail's turn the walk only meets nodes whose `next` is unchanged
      forall j | 0 <= j < k ensures Walk(a, c, j) != t {
        assert lap[j] != lap[n - 1];
      }
      WalkAgreesUntil(a, b, c, t, k);
    }
    assert Walk(b, c, n - 1) == t;
    assert Lap(b, c) == lap + [n];
  }

  /** The lap after a splice is the old lap with the new node at its end. */
  lemma {:induction false} AddSongExtendsLap(l: CircularList, songName: string, filePath: string)
    requires Valid(l) && NonEmpty(l)
    ensures LinksInRange(AddSong(l, songName, filePath).nodes)
    ensures var r, c := AddSong(l, songName, filePath), l.current.value;
      && Lap(r.nodes, c) == Lap(l.nodes, c) + [|l.nodes|]
      && Walk(r.nodes, c, |r.nodes|) == c
  {
    AddSongLinks(l, songName, filePath);
    LapExtends(l, AddSong(l, songName, filePath).nodes);
  }

  /** `AddSong` keeps the list well formed and puts the new node at the end of the lap. */
  lemma {:induction false} AddSongKeepsValid(l: CircularList, songName: string, filePath: string)
    requires Valid(l)
    ensures Valid(AddSong(l, songName, filePath))
    ensures NonEmpty(AddSong(l, songName, filePath))
    ensures Order(AddSong(l, songName, filePath)) == (if NonEmpty(l) then Order(l) else []) + [|l.nodes|]
  {
    var r := AddSong(l, songName, filePath);
    if NonEmpty(l) {
      var c, n := l.current.value, |l.nodes|;
      AddSongInverse(l, songName, filePath);
      AddSongExtendsLap(l, songName, filePath);
      var lap := Lap(l.nodes, c);
      forall a, b | 0 <= a < b < n + 1 ensures (lap + [n])[a] != (lap + [n])[b] {
        if b < n {
          assert lap[a] != lap[b];
        }
      }
    } else {
      assert Walk(r.nodes, 0, 1) == 0;
      assert Lap(r.nodes, 0) == [0];
    }
  }

  // ---------------------------------------------------------------------------
  // Moving the cursor

  /** Moves the cursor one node forward; the links stay as they are. */
  function NextSong(l: CircularList): (r: CircularList)
    requires Valid(l) && NonEmpty(l)
    ensures Valid(r) && NonEmpty(r) && r.nodes == l.nodes
  {
    CycleFromMember(l.nodes, l.current.value, 1);
    l.(current := Some(Next(l.nodes, l.current.value)))
  }

  /** A step forward rotates the lap by one: the old second node leads and the old cursor comes last. */
  lemma {:induction false} NextSongRotates(l: CircularList)
    requires Valid(l) && NonEmpty(l)
    ensures Order(NextSong(l)) == Order(l)[1..] + [Order(l)[0]]
  {
    CycleFromMember(l.nodes, l.current.value, 1);
    assert Order(l)[..1] == [Order(l)[0]];
  }

  /** Moves the cursor one node back; the links stay as they are. */
  function PrevSong(l: CircularList): (r: CircularList)
    requires Valid(l) && NonEmpty(l)
    ensures Valid(r) && NonEmpty(r) && r.nodes == l.nodes
  {
    PrevIsLastOfLap(l);
    CycleFromMember(l.nodes, l.current.value, |l.nodes| - 1);
    l.(current := Some(Prev(l.nodes, l.current.value)))
  }

  /** A step back rotates the lap the other way: the old last node leads. */
  lemma {:induction false} PrevSongRotates(l: CircularList)
    requires Valid(l) && NonEmpty(l)
    ensures Order(PrevSong(l)) == [Order(l)[|l.nodes| - 1]] + Order(l)[..|l.nodes| - 1]
  {
    var n := |l.nodes|;
    PrevIsLastOfLap(l);
    CycleFromMember(l.nodes, l.current.value, n - 1);
    assert Order(l)[n - 1..] == [Order(l)[n - 1]];
  }

  lemma {:induction false} NextThenPrev(l: CircularList)
    requires Valid(l) && NonEmpty(l)
    ensures PrevSong(NextSong(l)) == l
  {
  }

  lemma {:induction false} PrevThenNext(l: CircularList)
    requires Valid(l) && NonEmpty(l)
    ensures NextSong(PrevSong(l)) == l
  {
  }

  /** `NextSong` applied `k` times. */
  function NextN(l: CircularList, k: nat): (r: CircularList)
    requires Valid(l) && NonEmpty(l)
    ensures Valid(r) && NonEmpty(r) && r.nodes == l.nodes
  {
    if k == 0 then l else NextSong(NextN(l, k - 1))
  }

  /** After `k` forward steps the cursor sits on the node `k` links ahead. */
  lemma {:induction false} NextNWalks(l: CircularList, k: nat)
    requires Valid(l) && NonEmpty(l)
    ensures NextN(l, k) == l.(current := Some(Walk(l.nodes, l.current.value, k)))
  {
    if k > 0 {
      NextNWalks(l, k - 1);
    }
  }

  /** A full lap of `|nodes|` forward steps comes back to the starting node. */
  lemma {:induction false} FullLap(l: CircularList)
    requires Valid(l) && NonEmpty(l)
    ensures NextN(l, |l.nodes|) == l
  {
    NextNWalks(l, |l.nodes|);
  }

  // ---------------------------------------------------------------------------
  // Shuffling

  /**
   The traversal of the shuffle: starting at the cursor, pushes each node and
   steps forward until it is back at the cursor.
   */
  method CollectNodes(l: CircularList) returns (songs: seq<nat>)
    requires Valid(l) && NonEmpty(l)
    ensures songs == Order(l)
    ensures |songs| == |l.nodes| && Distinct(songs)
    ensures forall v :: 0 <= v < |l.nodes| ==> v in songs
  {
    var c := l.current.value;
    ghost var lap := Order(l);
    // the first pass of the do-while
    songs := [c];
    var temp := Next(l.nodes, c);
    while temp != c
      invariant 1 <= |songs| <= |l.nodes|
      invariant songs == lap[..|songs|]
      invariant temp == Walk(l.nodes, c, |songs|)
      decreases |l.nodes| - |songs|
    {
      songs := songs + [temp];
      temp := Next(l.nodes, temp);
    }
    NoEarlyReturn(l.nodes, c, |songs|);
    OrderIsPermutation(l);
  }

  /**
   Points the cursor at the `k`-th node collected by the traversal; `k` stands
   for the random pick and may be 0, which keeps the cursor where it was.
   */
  method Shuffle(l: CircularList, k: nat) returns (r: CircularList)
    requires Valid(l) && NonEmpty(l) && k < |l.nodes|
    ensures Valid(r) && NonEmpty(r) && r.nodes == l.nodes
    ensures r.current == Some(Order(l)[k])
    ensures k == 0 ==> r == l
  {
    var songs := CollectNodes(l);
    r := l.(current := Some(songs[k]));
    CycleFromMember(l.nodes, l.current.value, k);
  }

  // ---------------------------------------------------------------------------
  // Building a list

  /** The list built by appending `tracks` one by one to an empty list. */
  function Build(tracks: seq<Track>): (r: CircularList)
    ensures Valid(r) && |r.nodes| == |tracks|
    ensures |tracks| > 0 ==> r.current == Some(0)
  {
    if |tracks| == 0 then Empty()
    else
      var init := Build(tracks[..|tracks| - 1]);
      var t := tracks[|tracks| - 1];
      AddSongKeepsValid(init, t.songName, t.filePath);
      AddSong(init, t.songName, t.filePath)
  }

  /** The `i`-th node of a built list holds the `i`-th track. */
  lemma {:induction false} BuildHoldsTrack(tracks: seq<Track>, i: nat)
    requires i < |tracks|
    ensures Build(tracks).nodes[i].songName == tracks[i].songName
    ensures Build(tracks).nodes[i].filePath == tracks[i].filePath
  {
    var front := tracks[..|tracks| - 1];
    var t := tracks[|tracks| - 1];
    var init := Build(front);
    assert Build(tracks) == AddSong(init, t.songName, t.filePath);
    if i < |front| {
      BuildHoldsTrack(front, i);
      assert front[i] == tracks[i];
    }
  }

  /** The indices below `n`, in increasing order. */
  function Indices(n: nat): (r: seq<nat>)
    ensures |r| == n && forall k :: 0 <= k < n ==> r[k] == k
  {
    if n == 0 then [] else Indices(n - 1) + [n - 1]
  }

  /** A built list reads in insertion order from the cursor. */
  lemma {:induction false} BuildOrder(tracks: seq<Track>)
    requires |tracks| > 0
    ensures Order(Build(tracks)) == Indices(|tracks|)
  {
    var front := tracks[..|tracks| - 1];
    var t := tracks[|tracks| - 1];
    var init := Build(front);
    AddSongKeepsValid(init, t.songName, t.filePath);
    if |front| > 0 {
      BuildOrder(front);
    }
  }

  /** On a freshly built list, `k` forward steps land on the `k`-th appended song. */
  lemma {:induction false} BuildThenStep(tracks: seq<Track>, k: nat)
    requires 0 <= k < |tracks|
    ensures var l := Build(tracks);
      NextN(l, k).current == Some(k) && CurrentSong(NextN(l, k)).songName == tracks[k].songName
  {
    var l := Build(tracks);
    NextNWalks(l, k);
    BuildHoldsTrack(tracks, k);
    BuildOrder(tracks);
    assert Order(l)[k] == k;
  }

  function DemoTracks(): seq<Track> {
    [ Track("Song 1", "./Songs/song1.mp3"), Track("Song 2", "./Songs/song2.mp3"),
      Track("Song 3", "./Songs/song3.mp3"), Track("Song 4", "./Songs/song4.mp3"),
      Track("Song 5", "./Songs/song5.mp3"), Track("Song 6", "./Songs/song6.mp3"),
      Track("Song 7", "./Songs/song7.mp3") ]
  }

  /** The seven-song start-up list: seven forward steps return to "Song 1". */
  lemma {:induction false} DemoLap(tracks: seq<Track>)
    requires tracks == DemoTracks()
    ensures var l := Build(tracks);
      && CurrentSong(l).songName == "Song 1"
      && NextN(l, 7) == l
      && CurrentSong(NextN(l, 1)).songName == "Song 2"
  {
    var l := Build(tracks);
    assert |tracks| == 7 && tracks[0].songName == "Song 1" && tracks[1].songName == "Song 2";
    BuildHoldsTrack(tracks, 0);
    FullLap(l);
    BuildThenStep(tracks, 1);
  }
}
