/**
 * The metadata record sent ahead of the file body (FileMetaData in
 * v3/transfer.h, FileMetadata in transferThing.c: the same three fields).
 * Its in-memory layout is not modelled; the record travels as a value.
 */
module FileHeader {
  import opened IoScript
  import opened CStrings

  /** char filename[256]. */
  const FILENAME_FIELD: nat := 256
  /** sizeof(FileMetaData) on LP64 Linux: 256 + 8 (off_t) + 4 (mode_t) + 4 bytes of padding. */
  const METADATA_SIZE: int := 272

  datatype FileMetaData = FileMetaData(filename: string, size: int, mode: int)

  /**
   * The record the sender fills: zero-filled, its filename field given at
   * most 255 characters of `name`, and the size and mode that fstat reported.
   */
  function FillMetaData(name: string, size: int, mode: int): (m: FileMetaData)
    ensures |m.filename| == FILENAME_FIELD && m.filename[FILENAME_FIELD - 1] == NUL
    ensures CStr(m.filename) == CStr(name)[..Min(FILENAME_FIELD - 1, |CStr(name)|)]
    ensures forall i :: |CStr(m.filename)| <= i < FILENAME_FIELD ==> m.filename[i] == NUL
    ensures m.size == size && m.mode == mode
  {
    StrNCopyReadBack(name, FILENAME_FIELD - 1, FILENAME_FIELD);
    FileMetaData(StrNCopyField(name, FILENAME_FIELD - 1, FILENAME_FIELD), size, mode)
  }

  /** The answer of the single recv that reads the header: its count and the record it filled. */
  datatype HeaderAnswer = HeaderAnswer(count: int, record: FileMetaData)

  /** What the receiver leaves on disk: open(name, O_CREAT | O_WRONLY | O_TRUNC, mode) and the bytes written. */
  datatype CreatedFile = CreatedFile(name: string, mode: int, content: seq<byte>)
}
