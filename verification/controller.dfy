/**
 The playback controller: three flags of playback intent (`isPlaying`,
 `isLooping`, `isMuted`) kept beside the playlist, and the commands they send
 to a single audio resource.

 The resource is abstract: it holds the loaded source, the position in whole
 seconds, whether it is playing, and whether it is muted. Assigning a new
 source reloads the media, which rewinds it to 0 and stops it until the next
 `play()`.
 */
module Controller {
  import opened Wrappers
  import Playlist

  datatype Audio = Audio(src: string, currentTime: nat, playing: bool, muted: bool)

  datatype Player = Player(
    songs: Playlist.CircularList,
    audio: Audio,
    isPlaying: bool,
    isLooping: bool,
    isMuted: bool)

  // ---------------------------------------------------------------------------
  // Commands to the audio resource

  function Play(a: Audio): Audio {
    a.(playing := true)
  }

  function Pause(a: Audio): Audio {
    a.(playing := false)
  }

  function Load(a: Audio, src: string): Audio {
    a.(src := src, currentTime := 0, playing := false)
  }

  // ---------------------------------------------------------------------------
  // Invariants

  /** The playlist is usable and the resource holds its current song, muted as the flag says. */
  ghost predicate Consistent(p: Player) {
    && Playlist.Valid(p.songs)
    && Playlist.NonEmpty(p.songs)
    && p.audio.src == Playlist.CurrentSong(p.songs).filePath
    && p.audio.muted == p.isMuted
  }

  /** The play/pause intent matches what the resource is doing. */
  predicate InSync(p: Player) {
    p.isPlaying == p.audio.playing
  }

  // ---------------------------------------------------------------------------
  // Transitions

  /** Loads the current song into the resource. */
  function UpdateSongDetails(p: Player): (r: Player)
    requires Playlist.Valid(p.songs) && Playlist.NonEmpty(p.songs)
    ensures r.audio.src == Playlist.CurrentSong(p.songs).filePath && r.audio.currentTime == 0
    ensures r.audio.muted == p.audio.muted
    ensures r.songs == p.songs && r.isPlaying == p.isPlaying
    ensures r.isLooping == p.isLooping && r.isMuted == p.isMuted
  {
    p.(audio := Load(p.audio, Playlist.CurrentSong(p.songs).filePath))
  }

  /** Start-up: nothing playing, looping or muted, and the first song loaded. */
  function Init(songs: Playlist.CircularList): (r: Player)
    requires Playlist.Valid(songs) && Playlist.NonEmpty(songs)
    ensures Consistent(r) && InSync(r)
    ensures !r.isPlaying && !r.isLooping && !r.isMuted && r.songs == songs
  {
    UpdateSongDetails(Player(songs, Audio("", 0, false, false), false, false, false))
  }

  /** Pauses when playing, plays otherwise, and flips the intent. */
  function PlayPauseSong(p: Player): (r: Player)
    ensures r.isPlaying == !p.isPlaying
    ensures r.audio.playing == !p.isPlaying
    ensures r.audio.src == p.audio.src && r.audio.currentTime == p.audio.currentTime
    ensures r.audio.muted == p.audio.muted
    ensures r.songs == p.songs && r.isLooping == p.isLooping && r.isMuted == p.isMuted
  {
    var audio := if p.isPlaying then Pause(p.audio) else Play(p.audio);
    p.(audio := audio, isPlaying := !p.isPlaying)
  }

  /** Steps to the next song and plays it from the start. */
  function NextSong(p: Player): (r: Player)
    requires Playlist.Valid(p.songs) && Playlist.NonEmpty(p.songs)
    ensures r.songs == Playlist.NextSong(p.songs)
    ensures r.isPlaying && r.audio.playing && r.audio.currentTime == 0
    ensures r.audio.src == Playlist.CurrentSong(r.songs).filePath
    ensures r.audio.muted == p.audio.muted
    ensures r.isLooping == p.isLooping && r.isMuted == p.isMuted
  {
    var moved := p.(songs := Playlist.NextSong(p.songs));
    var loaded := UpdateSongDetails(moved);
    loaded.(audio := Play(loaded.audio), isPlaying := true)
  }

  /** Steps to the previous song and plays it from the start. */
  function PrevSong(p: Player): (r: Player)
    requires Playlist.Valid(p.songs) && Playlist.NonEmpty(p.songs)
    ensures r.songs == Playlist.PrevSong(p.songs)
    ensures r.isPlaying && r.audio.playing && r.audio.currentTime == 0
    ensures r.audio.src == Playlist.CurrentSong(r.songs).filePath
    ensures r.audio.muted == p.audio.muted
    ensures r.isLooping == p.isLooping && r.isMuted == p.isMuted
  {
    var moved := p.(songs := Playlist.PrevSong(p.songs));
    var loaded := UpdateSongDetails(moved);
    loaded.(audio := Play(loaded.audio), isPlaying := true)
  }

  /**
   Jumps to the `k`-th song of one lap from the current one (`k` stands for the
   random pick, so `k == 0` replays the current song) and plays it from the start.
   */
  method ShuffleSongs(p: Player, k: nat) returns (r: Player)
    requires Playlist.Valid(p.songs) && Playlist.NonEmpty(p.songs) && k < |p.songs.nodes|
    ensures Playlist.Valid(r.songs) && Playlist.NonEmpty(r.songs) && r.songs.nodes == p.songs.nodes
    ensures r.songs.current == Some(Playlist.Order(p.songs)[k])
    ensures r.isPlaying && r.audio.playing && r.audio.currentTime == 0
    ensures r.audio.src == Playlist.CurrentSong(r.songs).filePath
    ensures r.audio.muted == p.audio.muted
    ensures r.isLooping == p.isLooping && r.isMuted == p.isMuted
    ensures Consistent(p) ==> Consistent(r)
    ensures InSync(r)
  {
    var shuffled := Playlist.Shuffle(p.songs, k);
    var loaded := UpdateSongDetails(p.(songs := shuffled));
    r := loaded.(audio := Play(loaded.audio), isPlaying := true);
  }

  /**
   The resource reached the end of the song: when looping, rewind and play the
   same song again; otherwise go on as `NextSong` does.
   */
  function OnAudioEnd(p: Player): (r: Player)
    requires p.isLooping || (Playlist.Valid(p.songs) && Playlist.NonEmpty(p.songs))
    ensures p.isLooping ==>
      && r.audio == p.audio.(currentTime := 0, playing := true)
      && r.songs == p.songs && r.isPlaying == p.isPlaying
      && r.isLooping && r.isMuted == p.isMuted
    ensures !p.isLooping ==> r == NextSong(p)
  {
    if p.isLooping then
      p.(audio := Play(p.audio.(currentTime := 0)))
    else
      NextSong(p)
  }

  /** Flips the mute intent and mutes or unmutes the resource to match. */
  function MuteToggle(p: Player): (r: Player)
    ensures r.isMuted == !p.isMuted && r.audio.muted == r.isMuted
    ensures r.audio.src == p.audio.src && r.audio.currentTime == p.audio.currentTime
    ensures r.audio.playing == p.audio.playing
    ensures r.songs == p.songs && r.isPlaying == p.isPlaying && r.isLooping == p.isLooping
  {
    var isMuted := !p.isMuted;
    p.(isMuted := isMuted, audio := p.audio.(muted := isMuted))
  }

  /** Flips the loop intent; nothing is sent to the resource. */
  function LoopToggle(p: Player): (r: Player)
    ensures r.isLooping == !p.isLooping
    ensures r.audio == p.audio && r.songs == p.songs
    ensures r.isPlaying == p.isPlaying && r.isMuted == p.isMuted
  {
    p.(isLooping := !p.isLooping)
  }

  /** Space toggles play/pause, the right arrow steps forward, the left arrow back. */
  function HandleKey(p: Player, key: string): (r: Player)
    requires key == "ArrowRight" || key == "ArrowLeft" ==>
      Playlist.Valid(p.songs) && Playlist.NonEmpty(p.songs)
    ensures key == " " ==> r == PlayPauseSong(p)
    ensures key == "ArrowRight" ==> r == NextSong(p)
    ensures key == "ArrowLeft" ==> r == PrevSong(p)
    ensures key != " " && key != "ArrowRight" && key != "ArrowLeft" ==> r == p
  {
    match key
    case " " => PlayPauseSong(p)
    case "ArrowRight" => NextSong(p)
    case "ArrowLeft" => PrevSong(p)
    case _ => p
  }

  // ---------------------------------------------------------------------------
  // Properties across transitions

  /** Every transition keeps the resource loaded with the current song and muted as intended. */
  lemma {:induction false} TransitionsKeepConsistent(p: Player)
    requires Consistent(p)
    ensures Consistent(PlayPauseSong(p))
    ensures Consistent(NextSong(p)) && Consistent(PrevSong(p))
    ensures Consistent(OnAudioEnd(p))
    ensures Consistent(MuteToggle(p)) && Consistent(LoopToggle(p))
  {
  }

  /** Play/pause, stepping, muting and looping keep the intent in step with the resource. */
  lemma {:induction false} TransitionsKeepInSync(p: Player)
    requires Playlist.Valid(p.songs) && Playlist.NonEmpty(p.songs) && InSync(p)
    ensures InSync(PlayPauseSong(p))
    ensures InSync(NextSong(p)) && InSync(PrevSong(p))
    ensures InSync(MuteToggle(p)) && InSync(LoopToggle(p))
    ensures p.isPlaying ==> InSync(OnAudioEnd(p))
  {
  }

  /** Pressing play/pause twice restores the player when intent and resource agree. */
  lemma {:induction false} PlayPauseTwice(p: Player)
    requires InSync(p)
    ensures PlayPauseSong(PlayPauseSong(p)) == p
  {
  }

  /** Pressing mute twice restores the player when flag and resource agree. */
  lemma {:induction false} MuteTwice(p: Player)
    requires p.audio.muted == p.isMuted
    ensures MuteToggle(MuteToggle(p)) == p
  {
  }

  lemma {:induction false} LoopTwice(p: Player)
    ensures LoopToggle(LoopToggle(p)) == p
  {
  }

  /** Going forward then back (or back then forward) returns to the same song. */
  lemma {:induction false} NextThenPrevSong(p: Player)
    requires Playlist.Valid(p.songs) && Playlist.NonEmpty(p.songs)
    ensures PrevSong(NextSong(p)).songs == p.songs
    ensures NextSong(PrevSong(p)).songs == p.songs
  {
    Playlist.NextThenPrev(p.songs);
    Playlist.PrevThenNext(p.songs);
  }

  /** A right arrow then a left arrow, or the reverse, returns to the same song; two spaces restore the player. */
  lemma {:induction false} KeysUndo(p: Player)
    requires Playlist.Valid(p.songs) && Playlist.NonEmpty(p.songs)
    ensures HandleKey(HandleKey(p, "ArrowRight"), "ArrowLeft").songs == p.songs
    ensures HandleKey(HandleKey(p, "ArrowLeft"), "ArrowRight").songs == p.songs
    ensures InSync(p) ==> HandleKey(HandleKey(p, " "), " ") == p
  {
    NextThenPrevSong(p);
    if InSync(p) {
      PlayPauseTwice(p);
    }
  }

  /** Whatever key is pressed, the player stays consistent, and in sync when it was. */
  lemma {:induction false} KeysKeepConsistent(p: Player, key: string)
    requires Consistent(p)
    ensures Consistent(HandleKey(p, key))
    ensures InSync(p) ==> InSync(HandleKey(p, key))
  {
    TransitionsKeepConsistent(p);
    if InSync(p) {
      TransitionsKeepInSync(p);
    }
  }

  /** `NextSong` applied `k` times. */
  function PlayNextN(p: Player, k: nat): (r: Player)
    requires Playlist.Valid(p.songs) && Playlist.NonEmpty(p.songs)
    ensures Playlist.Valid(r.songs) && Playlist.NonEmpty(r.songs)
  {
    if k == 0 then p else NextSong(PlayNextN(p, k - 1))
  }

  /** After a full lap of `NextSong` the same song is loaded and playing from the start. */
  lemma {:induction false} PlayNextLap(p: Player, k: nat)
    requires Playlist.Valid(p.songs) && Playlist.NonEmpty(p.songs) && k > 0
    ensures PlayNextN(p, k).songs == Playlist.NextN(p.songs, k)
    ensures PlayNextN(p, k).isPlaying && PlayNextN(p, k).audio.currentTime == 0
    ensures PlayNextN(p, k).audio.src == Playlist.CurrentSong(Playlist.NextN(p.songs, k)).filePath
  {
    if k > 1 {
      PlayNextLap(p, k - 1);
    }
  }

  lemma {:induction false} PlayNextFullLap(p: Player)
    requires Playlist.Valid(p.songs) && Playlist.NonEmpty(p.songs)
    ensures var r := PlayNextN(p, |p.songs.nodes|);
      r.songs == p.songs && r.isPlaying && r.audio.src == Playlist.CurrentSong(p.songs).filePath
  {
    PlayNextLap(p, |p.songs.nodes|);
    Playlist.FullLap(p.songs);
  }
}
