/** The checks VideoAnalysis.post applies to an upload before any processing. */
module Upload {

  import opened Results
  import opened Text
  import opened Settings

  /** One multipart file field: the client's file name and the stream (opaque here). */
  datatype FileField<Stream> = FileField(filename: string, stream: Stream)

  /** The form field that must carry the video. */
  const VideoField := "video"

  datatype Rejection = NoFile | NoFileSelected | UnsupportedFormat

  /** The message of the 400 response for each rejection. */
  function RejectionMessage(r: Rejection): string {
    match r
    case NoFile => "没有文件上传"
    case NoFileSelected => "没有选择文件"
    case UnsupportedFormat => "不支持的文件格式"
  }

  /** filename.lower().endswith(tuple(formats)) */
  predicate SupportedName(filename: string, formats: seq<string>) {
    exists i :: 0 <= i < |formats| && EndsWith(Lower(filename), formats[i])
  }

  /**
   * The three rejections, in the order post tests them; an upload that passes
   * them is the one handed on to processing.
   */
  function CheckUpload<Stream>(files: map<string, FileField<Stream>>, formats: seq<string>): (r: Result<FileField<Stream>, Rejection>)
    ensures r == Err(NoFile) <==> VideoField !in files
    ensures r == Err(NoFileSelected) <==> VideoField in files && files[VideoField].filename == ""
    ensures r == Err(UnsupportedFormat) <==>
              VideoField in files && files[VideoField].filename != "" && !SupportedName(files[VideoField].filename, formats)
    ensures r.Ok? <==> VideoField in files && files[VideoField].filename != "" && SupportedName(files[VideoField].filename, formats)
    ensures r.Ok? ==> r.value == files[VideoField]
  {
    if VideoField !in files then Err(NoFile)
    else
      var video := files[VideoField];
      if video.filename == "" then Err(NoFileSelected)
      else if !SupportedName(video.filename, formats) then Err(UnsupportedFormat)
      else Ok(video)
  }

  /**
   * With suffixes of four characters (such as ".mp4", ".avi", ".mov"), a name is
   * supported exactly when its last four characters, lower-cased, are one of them:
   * the check ignores case in the name.
   */
  lemma SupportedByLastFour(filename: string, formats: seq<string>)
    requires forall i :: 0 <= i < |formats| ==> |formats[i]| == 4
    ensures SupportedName(filename, formats) <==>
              |filename| >= 4 && Lower(filename[|filename| - 4..]) in formats
  {
    if |filename| >= 4 {
      LowerSuffix(filename, |filename| - 4);
      var tail := Lower(filename[|filename| - 4..]);
      if tail in formats {
        var i :| 0 <= i < |formats| && formats[i] == tail;
        assert EndsWith(Lower(filename), formats[i]);
      }
    }
  }

  /**
   * The shipped configuration satisfies what the selection loop relies on, and its
   * formats all have four characters, so an upload passes the format check exactly
   * when its name ends, in any case, in ".mp4", ".avi" or ".mov".
   */
  lemma DefaultFormats(filename: string)
    ensures Default.Valid()
    ensures forall i :: 0 <= i < |Default.supportedFormats| ==> |Default.supportedFormats[i]| == 4
    ensures SupportedName(filename, Default.supportedFormats) <==>
              |filename| >= 4 && Lower(filename[|filename| - 4..]) in {".mp4", ".avi", ".mov"}
  {
    SupportedByLastFour(filename, Default.supportedFormats);
  }
}
