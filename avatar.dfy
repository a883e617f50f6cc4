/** The avatar's two video elements and the handlers that drive them.
    One element plays (the active one, which carries the `active` class); the
    other is loaded with the next video in the background. A transition is a
    request, which writes the next source into the inactive element, reloads it
    and registers a one-shot `canplaythrough` listener, and, later, that
    listener firing, which plays the new video, moves the `active` class, swaps
    the two role variables and arms the `ended` listener that rotates to a
    random next video. */
module Avatar {
  import opened Classifier
  import opened Playlist
  import opened Transcript

  /** The two `canplaythrough` listeners the source registers: the rotation's,
      which does not pause the outgoing video, and the one of a menu pick or
      an emotional reaction, which does. */
  datatype ReadyHandler = RotationReady | OverrideReady

  /** A `<video>` element with its single `<source>` child. */
  class VideoElement {
    var src: string                        // the `src` attribute of the `<source>` child
    var active: bool                       // carries the `active` class
    var playing: bool
    var loadRequests: nat                  // how many times `load()` was called
    var readyListeners: seq<ReadyHandler>  // pending `canplaythrough` listeners, in registration order
    var endedArmed: bool                   // `switchVideo` is registered for `ended`

    constructor (src: string, active: bool, playing: bool)
      ensures this.src == src && this.active == active && this.playing == playing
      ensures loadRequests == 0 && readyListeners == [] && !endedArmed
    {
      this.src := src;
      this.active := active;
      this.playing := playing;
      loadRequests := 0;
      readyListeners := [];
      endedArmed := false;
    }

    /** Sets the source, calls `load()` and registers a one-shot `canplaythrough` listener. */
    method Load(newSrc: string, h: ReadyHandler)
      modifies this
      ensures src == newSrc && loadRequests == old(loadRequests) + 1
      ensures readyListeners == old(readyListeners) + [h]
      ensures active == old(active) && playing == old(playing) && endedArmed == old(endedArmed)
    {
      src := newSrc;
      loadRequests := loadRequests + 1;
      readyListeners := readyListeners + [h];
    }
  }

  class Player {
    var activeVideo: VideoElement
    var inactiveVideo: VideoElement
    var transcriptText: string             // the text shown in the transcript container

    /** The two role variables name distinct elements and exactly the active one
        carries the `active` class. */
    ghost predicate Valid()
      reads this, activeVideo, inactiveVideo
    {
      activeVideo != inactiveVideo && activeVideo.active && !inactiveVideo.active
    }

    /** The page at start-up: the first element shows and plays its video, and
        its `ended` listener is armed. */
    constructor (firstSrc: string, secondSrc: string)
      ensures Valid() && fresh(activeVideo) && fresh(inactiveVideo)
      ensures activeVideo.src == firstSrc && inactiveVideo.src == secondSrc
      ensures activeVideo.playing && !inactiveVideo.playing
      ensures activeVideo.endedArmed && !inactiveVideo.endedArmed
      ensures activeVideo.readyListeners == [] && inactiveVideo.readyListeners == []
      ensures activeVideo.loadRequests == 0 && inactiveVideo.loadRequests == 0
      ensures transcriptText == ""
    {
      var video1 := new VideoElement(firstSrc, true, true);
      var video2 := new VideoElement(secondSrc, false, false);
      video1.endedArmed := true;
      activeVideo := video1;
      inactiveVideo := video2;
      transcriptText := "";
    }

    /** The state after a request for `src` with listener `h`: the inactive
        element holds `src`, was reloaded once more and has `h` pending; nothing
        else about it changed. */
    twostate predicate Requested(src: string, h: ReadyHandler)
      reads this, inactiveVideo
    {
      inactiveVideo == old(inactiveVideo) &&
      inactiveVideo.src == src &&
      inactiveVideo.loadRequests == old(inactiveVideo.loadRequests) + 1 &&
      inactiveVideo.readyListeners == old(inactiveVideo.readyListeners) + [h] &&
      inactiveVideo.active == old(inactiveVideo.active) &&
      inactiveVideo.playing == old(inactiveVideo.playing) &&
      inactiveVideo.endedArmed == old(inactiveVideo.endedArmed)
    }

    /** The state after an emotion reaction to `text`: a neutral text, or a
        picked video that is already showing, changes nothing; otherwise the
        picked video is requested. */
    twostate predicate Reacted(text: string, draw: nat)
      requires draw < |PositiveVideos|
      reads this, activeVideo, inactiveVideo
    {
      var e := Classify(text);
      if e == Neutral || EmotionPick(e, draw) == old(activeVideo.src) then
        inactiveVideo == old(inactiveVideo) && unchanged(old(inactiveVideo))
      else Requested(EmotionPick(e, draw), OverrideReady)
    }

    /** `switchVideo`: redraws until the video differs from the active one and
        requests it. */
    method SwitchVideo(draws: seq<nat>)
      requires Valid() && RotationCanFinish(activeVideo.src, draws)
      modifies inactiveVideo
      ensures Valid()
      ensures IsRotationPick(activeVideo.src, draws, inactiveVideo.src)
      ensures Requested(inactiveVideo.src, RotationReady)
    {
      var next, used := PickRotation(activeVideo.src, draws);
      assert PickedAfter(activeVideo.src, draws, used, next);
      inactiveVideo.Load(next, RotationReady);
    }

    /** `playSpecificVideo`, the handler of a menu item: no-op when the video
        already shows. */
    method PlaySpecificVideo(videoSrc: string)
      requires Valid()
      modifies inactiveVideo
      ensures Valid()
      ensures videoSrc == activeVideo.src ==> unchanged(inactiveVideo)
      ensures videoSrc != activeVideo.src ==> Requested(videoSrc, OverrideReady)
    {
      if videoSrc == activeVideo.src {
        return;
      }
      inactiveVideo.Load(videoSrc, OverrideReady);
    }

    /** `switchVideoByEmotion`: picks the reaction video and requests it unless
        it already shows. */
    method SwitchVideoByEmotion(emotion: Emotion, draw: nat)
      requires Valid() && draw < |PositiveVideos|
      modifies inactiveVideo
      ensures Valid()
      ensures EmotionPick(emotion, draw) == activeVideo.src ==> unchanged(inactiveVideo)
      ensures EmotionPick(emotion, draw) != activeVideo.src ==> Requested(EmotionPick(emotion, draw), OverrideReady)
    {
      var nextVideoSrc;
      if emotion == Positive {
        nextVideoSrc := PositiveVideos[draw];
      } else {
        nextVideoSrc := NegativeVideo;
      }
      if nextVideoSrc == activeVideo.src {
        return;
      }
      inactiveVideo.Load(nextVideoSrc, OverrideReady);
    }

    /** `analyzeAndReact`: classifies the text and reacts to any non-neutral emotion. */
    method AnalyzeAndReact(text: string, draw: nat)
      requires Valid() && draw < |PositiveVideos|
      modifies inactiveVideo
      ensures Valid()
      ensures Reacted(text, draw)
    {
      var reaction := Classify(text);
      if reaction != Neutral {
        SwitchVideoByEmotion(reaction, draw);
      }
    }

    /** The speech recognizer's result handler: folds the event, shows the
        final text or else the interim text, and reacts to a non-empty final text. */
    method OnResult(results: seq<Segment>, resultIndex: nat, draw: nat)
      requires Valid() && draw < |PositiveVideos|
      modifies this, inactiveVideo
      ensures Valid()
      ensures activeVideo == old(activeVideo) && inactiveVideo == old(inactiveVideo)
      ensures var final := FinalText(results, resultIndex);
              transcriptText == if final != "" then final else InterimText(results, resultIndex)
      ensures FinalText(results, resultIndex) == "" ==> unchanged(inactiveVideo)
      ensures FinalText(results, resultIndex) != "" ==> Reacted(FinalText(results, resultIndex), draw)
    {
      var final, interim := FoldTranscript(results, resultIndex);
      transcriptText := if final != "" then final else interim;
      if final != "" {
        AnalyzeAndReact(final, draw);
      }
    }

    /** The first pending `canplaythrough` listener of `v` fires. It is removed
        (it was registered once), the inactive element plays (the menu and
        reaction listeners first pause the active one), the `active` class
        moves, the role variables swap and `ended` is armed on the new active
        element. The listener acts on whichever element the role variables name
        when it runs, so it swaps in whatever source the inactive element holds
        at that moment. */
    method FireReady(v: VideoElement)
      requires Valid() && (v == activeVideo || v == inactiveVideo) && v.readyListeners != []
      modifies this, activeVideo, inactiveVideo
      ensures Valid()
      ensures activeVideo == old(inactiveVideo) && inactiveVideo == old(activeVideo)
      ensures activeVideo.src == old(inactiveVideo.src) && inactiveVideo.src == old(activeVideo.src)
      ensures activeVideo.playing && activeVideo.endedArmed
      ensures inactiveVideo.playing == (old(activeVideo.playing) && old(v.readyListeners[0]) == RotationReady)
      ensures inactiveVideo.endedArmed == old(activeVideo.endedArmed)
      ensures activeVideo.loadRequests == old(inactiveVideo.loadRequests)
      ensures inactiveVideo.loadRequests == old(activeVideo.loadRequests)
      ensures activeVideo.readyListeners ==
                if v == activeVideo then old(v.readyListeners)[1..] else old(inactiveVideo.readyListeners)
      ensures inactiveVideo.readyListeners ==
                if v == inactiveVideo then old(v.readyListeners)[1..] else old(activeVideo.readyListeners)
      ensures transcriptText == old(transcriptText)
    {
      var handler := v.readyListeners[0];
      v.readyListeners := v.readyListeners[1..];
      if handler == OverrideReady {
        activeVideo.playing := false;
      }
      inactiveVideo.playing := true;
      activeVideo.active := false;
      inactiveVideo.active := true;
      activeVideo, inactiveVideo := inactiveVideo, activeVideo;
      activeVideo.endedArmed := true;
    }

    /** `v` plays to its end: its one-shot `ended` listener is consumed and the
        rotation requests a video other than the active one. */
    method FireEnded(v: VideoElement, draws: seq<nat>)
      requires Valid() && (v == activeVideo || v == inactiveVideo) && v.endedArmed
      requires RotationCanFinish(activeVideo.src, draws)
      modifies v, inactiveVideo
      ensures Valid()
      ensures !v.endedArmed && !v.playing
      ensures IsRotationPick(activeVideo.src, draws, inactiveVideo.src)
      ensures inactiveVideo.loadRequests == old(inactiveVideo.loadRequests) + 1
      ensures inactiveVideo.readyListeners == old(inactiveVideo.readyListeners) + [RotationReady]
      ensures v != inactiveVideo ==> inactiveVideo.endedArmed == old(inactiveVideo.endedArmed)
      ensures v != inactiveVideo ==> inactiveVideo.playing == old(inactiveVideo.playing)
      ensures v != activeVideo ==> unchanged(activeVideo)
      ensures v == activeVideo ==> activeVideo.src == old(activeVideo.src) &&
                                   activeVideo.readyListeners == old(activeVideo.readyListeners) &&
                                   activeVideo.loadRequests == old(activeVideo.loadRequests)
    {
      v.endedArmed := false;
      v.playing := false;
      SwitchVideo(draws);
    }
  }

  /** A shouted "SAD" while the first rotation video shows: once the reaction
      video is ready it shows, and when it ends the rotation moves on to a
      video other than the reaction video. */
  method SadReactionThenRotation() returns (shown: string, next: string)
    ensures shown == NegativeVideo
    ensures next != shown && next in VideoList
  {
    var player := new Player(VideoList[0], VideoList[1]);
    ShoutedSadIsNegative();
    var results := [Segment(true, "SAD")];
    assert Texts(results, true) == ["SAD"];
    player.OnResult(results, 0, 0);
    player.FireReady(player.inactiveVideo);
    shown := player.activeVideo.src;
    var draws := [0];
    assert VideoList[draws[0]] != shown;
    player.FireEnded(player.activeVideo, draws);
    next := player.inactiveVideo.src;
  }
}
