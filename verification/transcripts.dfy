/** The transcriber's `result.json`: a transcription split into timed segments. */
module Transcripts {
  import opened Strings

  /** One entry of `result.json`'s `segments` list. Times are in seconds and are
      only ever compared, never combined. */
  datatype Segment = Segment(id: int, start: real, end: real, text: string, avgLogprob: real)

  /** The parsed `result.json`. `language` stands for every key the scripts
      carry through unchanged. */
  datatype Transcription = Transcription(text: string, segments: seq<Segment>, language: string)

  /** `"".join(segment["text"] for segment in segs)`. */
  function JoinTexts(segs: seq<Segment>): string
  {
    if |segs| == 0 then "" else segs[0].text + JoinTexts(segs[1..])
  }
}
