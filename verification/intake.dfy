/** What both upload dialogs hand to the outside world: browser `File` values,
    upload tasks for the transfer queue, and the callbacks they fire. The
    transfer queue, the listing fetch and the drawer's host are not part of
    this model; their calls appear here as `Effect` values, in call order. */
module Intake {

  newtype byte = x: int | 0 <= x < 256

  /** The contents of a `File`: the bytes of a file the user picked, or the
      text of a note (the browser encodes it when the file is sent). */
  datatype Blob = Picked(bytes: seq<byte>) | Typed(text: string)

  /** A browser `File`: its name, its MIME type (`file.type`) and its contents. */
  datatype LocalFile = LocalFile(name: string, mimeType: string, body: Blob)

  /** One entry handed to `uploadEnqueue`: a file and the directory it goes to. */
  datatype UploadTask = UploadTask(file: LocalFile, basedir: string)

  /** An observable call made by a dialog: `uploadEnqueue(...tasks)`,
      `setOpen(open)`, or the `onUpload()` refresh callback. */
  datatype Effect = Enqueue(tasks: seq<UploadTask>) | SetOpen(open: bool) | OnUpload

  /** The names of a list of files, in order. */
  function Names(files: seq<LocalFile>): seq<string>
  {
    seq(|files|, i requires 0 <= i < |files| => files[i].name)
  }
}
