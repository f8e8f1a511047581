/**
 * What the bootstrap layer asks of PHP and the operating system, given as
 * data: the working directory, symbolic links, `realpath`, file contents and
 * their JSON decoding, and what a recursive directory iterator yields.
 */
module Environment {
  import opened Values

  /** `json_last_error()` codes; only the first, second, fourth and fifth have
      a text in the loader's message table. */
  datatype JsonError =
    | JsonErrorNone
    | JsonErrorDepth
    | JsonErrorStateMismatch
    | JsonErrorCtrlChar
    | JsonErrorSyntax
    | JsonErrorUtf8

  /** The result of `json_decode`: a value, or null with an error code. A
      document that is the JSON literal `null` decodes to `Decoded(VNull)`. */
  datatype Decoded = Decoded(json: Value) | DecodeFailed(code: JsonError)

  /** A readable file: its text and what `json_decode` makes of it. */
  datatype FileData = FileData(text: string, decoded: Decoded)

  datatype Host = Host(
    cwd: string,                        // getcwd()
    links: map<string, string>,         // existing symbolic links and their readlink() targets
    realpaths: map<string, string>,     // realpath(); a missing key is `false`
    files: map<string, FileData>,       // file_get_contents(); a missing key is `false`
    walks: map<string, seq<string>>,    // is_dir(); the path names a recursive walk yields, in order
    jsonAvailable: bool,                // function_exists('json_decode')
    cli: bool)                          // VictoryCMS::isCli()
}
