/** The fixed video pools and the two ways a next video is chosen: the
    autonomous rotation, which redraws until it leaves the current video, and
    the emotional reaction, which draws from the positive pool or takes the one
    negative video. A draw stands for `Math.floor(Math.random() * n)` and is
    supplied by the caller. */
module Playlist {
  import opened Classifier

  const VideoList: seq<string> := [
    "视频资源/3D 建模图片制作.mp4",
    "视频资源/jimeng-2025-07-16-1043-笑着优雅的左右摇晃，过一会儿手扶着下巴，保持微笑.mp4",
    "视频资源/jimeng-2025-07-16-4437-比耶，然后微笑着优雅的左右摇晃.mp4",
    "视频资源/生成加油视频.mp4",
    "视频资源/生成跳舞视频.mp4",
    "视频资源/负面/jimeng-2025-07-16-9418-双手叉腰，嘴巴一直在嘟囔，表情微微生气.mp4"
  ]

  const PositiveVideos: seq<string> := [
    "视频资源/jimeng-2025-07-16-1043-笑着优雅的左右摇晃，过一会儿手扶着下巴，保持微笑.mp4",
    "视频资源/jimeng-2025-07-16-4437-比耶，然后微笑着优雅的左右摇晃.mp4",
    "视频资源/生成加油视频.mp4",
    "视频资源/生成跳舞视频.mp4"
  ]

  const NegativeVideo: string := "视频资源/负面/jimeng-2025-07-16-9418-双手叉腰，嘴巴一直在嘟囔，表情微微生气.mp4"

  // ---------------------------------------------------------------------------
  // Emotional reaction

  /** The video an emotion asks for: the drawn member of the positive pool for
      a positive emotion, the negative video for anything else. Every reaction
      video is also part of the rotation list. */
  function EmotionPick(e: Emotion, draw: nat): (src: string)
    requires draw < |PositiveVideos|
    ensures e == Positive ==> src in PositiveVideos
    ensures e != Positive ==> src == NegativeVideo
    ensures src in VideoList
  {
    if e == Positive then PositiveVideos[draw] else NegativeVideo
  }

  // ---------------------------------------------------------------------------
  // Autonomous rotation

  /** Every draw is an index of the rotation list, and at least one of them
      lands on a video other than `current`, so the redraw loop stops. */
  predicate RotationCanFinish(current: string, draws: seq<nat>)
  {
    (forall j :: 0 <= j < |draws| ==> draws[j] < |VideoList|) &&
    exists j :: 0 <= j < |draws| && VideoList[draws[j]] != current
  }

  /** `next` is what rejection sampling from `draws` yields when it stops
      after `used` draws: the first drawn video that differs from `current`. */
  ghost predicate PickedAfter(current: string, draws: seq<nat>, used: int, next: string)
  {
    0 < used <= |draws| && (forall j :: 0 <= j < |draws| ==> draws[j] < |VideoList|) &&
    next == VideoList[draws[used - 1]] && next != current &&
    forall j :: 0 <= j < used - 1 ==> VideoList[draws[j]] == current
  }

  ghost predicate IsRotationPick(current: string, draws: seq<nat>, next: string)
  {
    exists used :: PickedAfter(current, draws, used, next)
  }

  /** The redraw loop of the rotation: draw until the video differs from the
      current one. `used` is how many draws it consumed. */
  method PickRotation(current: string, draws: seq<nat>) returns (next: string, used: nat)
    requires RotationCanFinish(current, draws)
    ensures 0 < used <= |draws| && next == VideoList[draws[used - 1]]
    ensures next != current && next in VideoList
    ensures forall j :: 0 <= j < used - 1 ==> VideoList[draws[j]] == current
  {
    next := current;
    used := 0;
    while next == current
      invariant used <= |draws|
      invariant used == 0 ==> next == current
      invariant used > 0 ==> next == VideoList[draws[used - 1]]
      invariant forall j :: 0 <= j < used - 1 ==> VideoList[draws[j]] == current
      invariant next == current ==> forall j :: 0 <= j < used ==> VideoList[draws[j]] == current
      decreases |draws| - used
    {
      next := VideoList[draws[used]];
      used := used + 1;
    }
  }

  /** The draws determine the rotation's choice. */
  lemma RotationPickUnique(current: string, draws: seq<nat>, next1: string, next2: string)
    requires IsRotationPick(current, draws, next1) && IsRotationPick(current, draws, next2)
    ensures next1 == next2
  {
  }

  /** Whatever video is current, the rotation list holds another one (its
      entries are not all the same), so some sequence of draws lets the redraw
      loop stop. */
  lemma RotationAlwaysPossible(current: string)
    ensures exists draws :: RotationCanFinish(current, draws)
  {
    if current == VideoList[0] {
      var draws := [1];
      assert VideoList[draws[0]] != current;
      assert RotationCanFinish(current, draws);
    } else {
      var draws := [0];
      assert VideoList[draws[0]] != current;
      assert RotationCanFinish(current, draws);
    }
  }
}
