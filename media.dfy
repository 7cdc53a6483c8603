/**
 * The media probe the packager calls (ffmpeg.probe) and what it reads from
 * the probe: the duration of audio and video files and the display aspect
 * ratio of a video's first video stream. The probe itself is a foreign call
 * and is modelled as an oracle: a function from the probed path to the
 * parsed probe, or None when ffmpeg raises an error.
 */
module Media {
  import opened Wrappers
  import opened Tables

  /** One entry of probe['streams']: its codec_type and its
      display_aspect_ratio, each None when the key is absent. */
  datatype Stream = Stream(codecType: Option<string>, aspectRatio: Option<string>)

  /** The parsed output of ffmpeg.probe: probe['format']['duration'] (kept as
      the opaque text ffmpeg reports) and probe['streams']. */
  datatype Probe = Probe(duration: string, streams: seq<Stream>)

  /** ffmpeg.probe as an oracle: None stands for a raised ffmpeg.Error. */
  type Prober = string -> Option<Probe>

  /**
   * next(stream['display_aspect_ratio'] for stream in streams if
   * stream['codec_type'] == 'video'): the aspect ratio of the first video
   * stream. No video stream raises StopIteration; a stream without a
   * codec_type reached before the first video stream raises KeyError, and so
   * does a first video stream without an aspect ratio.
   */
  function VideoAspectRatio(streams: seq<Stream>, path: string): (r: Result<string, Failure>)
    ensures r.Ok? <==> exists i :: 0 <= i < |streams| && FirstVideo(streams, i) && streams[i].aspectRatio.Some?
    ensures r.Ok? ==> exists i :: 0 <= i < |streams| && FirstVideo(streams, i) &&
                                streams[i].aspectRatio == Some(r.value)
    ensures r == Err(NoVideoStream(path)) <==> Passed(streams, |streams|)
    ensures r == Err(MissingKey("codec_type")) <==>
              exists i :: 0 <= i < |streams| && Passed(streams, i) && streams[i].codecType.None?
    ensures r.Err? ==> r.error in {NoVideoStream(path), MissingKey("codec_type"), MissingKey("display_aspect_ratio")}
  {
    if streams == [] then Err(NoVideoStream(path))
    else
      assert Passed(streams, 0);
      match streams[0].codecType
      case None => Err(MissingKey("codec_type"))
      case Some(t) =>
        if t == "video" then
          match streams[0].aspectRatio
          case Some(a) => Ok(a)
          case None => Err(MissingKey("display_aspect_ratio"))
        else
          var r := VideoAspectRatio(streams[1..], path);
          PassedTail(streams);
          r
  }

  /** The first `i` streams have a codec_type and none of them is a video. */
  predicate Passed(streams: seq<Stream>, i: nat)
    requires i <= |streams|
  {
    forall k :: 0 <= k < i ==> streams[k].codecType.Some? && streams[k].codecType.value != "video"
  }

  /** Stream `i` is the first video stream, and every stream before it has a
      codec_type. */
  predicate FirstVideo(streams: seq<Stream>, i: nat)
    requires i < |streams|
  {
    Passed(streams, i) && streams[i].codecType == Some("video")
  }

  /** Passing the first stream: what holds of `streams` from index 1 holds of
      its tail one index earlier. */
  lemma {:induction false} PassedTail(streams: seq<Stream>)
    requires streams != [] && Passed(streams, 1)
    ensures forall i :: 0 <= i <= |streams| - 1 ==> (Passed(streams[1..], i) <==> Passed(streams, i + 1))
  {
    forall i | 0 <= i <= |streams| - 1 ensures Passed(streams[1..], i) <==> Passed(streams, i + 1) {
      assert forall k :: 0 <= k < i ==> streams[1..][k] == streams[k + 1];
    }
  }
}
