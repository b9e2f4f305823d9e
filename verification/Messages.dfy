/** What the user programs print when something fails. */
module Messages {
  import opened Bytes

  /** "directory open failed" */
  const DIR_FAILED: seq<byte> := [100, 105, 114, 101, 99, 116, 111, 114, 121, 32, 111, 112, 101, 110, 32, 102, 97, 105, 108, 101, 100, 10]

  /** "file open failed" */
  const OPEN_FAILED: seq<byte> := [102, 105, 108, 101, 32, 111, 112, 101, 110, 32, 102, 97, 105, 108, 101, 100, 10]

  /** "file read failed" */
  const READ_FAILED: seq<byte> := [102, 105, 108, 101, 32, 114, 101, 97, 100, 32, 102, 97, 105, 108, 101, 100, 10]

  /** "file not found" */
  const NOT_FOUND: seq<byte> := [102, 105, 108, 101, 32, 110, 111, 116, 32, 102, 111, 117, 110, 100, 10]

  /** "could not read argument" */
  const NO_ARGUMENT: seq<byte> := [99, 111, 117, 108, 100, 32, 110, 111, 116, 32, 114, 101, 97, 100, 32, 97, 114, 103, 117, 109, 101, 110, 116, 10]

  /** "could not read arguments" */
  const NO_ARGUMENTS: seq<byte> := [99, 111, 117, 108, 100, 32, 110, 111, 116, 32, 114, 101, 97, 100, 32, 97, 114, 103, 117, 109, 101, 110, 116, 115, 10]

  lemma OpenMessagesRead()
    ensures DIR_FAILED == Ascii("directory open failed\n")
    ensures OPEN_FAILED == Ascii("file open failed\n")
    ensures READ_FAILED == Ascii("file read failed\n")
  {
  }

  lemma OtherMessagesRead()
    ensures NOT_FOUND == Ascii("file not found\n")
    ensures NO_ARGUMENT == Ascii("could not read argument\n")
    ensures NO_ARGUMENTS == Ascii("could not read arguments\n")
  {
  }
}
