/**
 * The guide's staging directory as far as the block loop touches it: the set
 * of files present and the cover-frame extraction that adds one. Extraction
 * runs ffmpeg, a foreign call, and is modelled as an oracle saying whether
 * extracting the first frame of a video into an image file succeeds.
 */
module Directory {
  import opened Wrappers
  import opened Tables

  /** ffmpeg.input(video).output(image, vframes=1).run(), as an oracle: false
      stands for a raised ffmpeg.Error. */
  type Extractor = (string, string) -> bool

  class GuideDirectory {
    /** The paths of the files present. */
    var files: set<string>
    const extract: Extractor

    constructor (files: set<string>, extract: Extractor)
      ensures this.files == files && this.extract == extract
    {
      this.files := files;
      this.extract := extract;
    }

    /**
     * The cover step of a video block: nothing is done when the image file
     * already exists; otherwise the first frame is extracted into it, and a
     * failed extraction aborts the run (exit(1)).
     */
    method ExtractCover(video: string, image: string) returns (res: Outcome<Failure>)
      modifies this`files
      ensures image in old(files) ==> res == Pass && files == old(files)
      ensures image !in old(files) && extract(video, image) ==> res == Pass && files == old(files) + {image}
      ensures image !in old(files) && !extract(video, image) ==>
                res == Fail(CoverExtractionFailed(image)) && files == old(files)
      ensures old(files) <= files && (res.Pass? ==> image in files)
    {
      if image in files {
        return Pass;
      }
      if !extract(video, image) {
        return Fail(CoverExtractionFailed(image));
      }
      files := files + {image};
      res := Pass;
    }
  }
}
