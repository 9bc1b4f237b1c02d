/** The directory walk both generators read, in `os.walk` order: one entry
    per directory, with the files of that directory and, for each file, the
    lines iterating over the open file yields. */
module Walk {

  datatype File = File(name: string, lines: seq<string>)

  datatype Dir = Dir(root: string, files: seq<File>)
}
