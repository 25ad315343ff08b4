/** The part of the local filesystem the extractor touches, reduced to what
    decides its behaviour: which directories exist, what each written file
    holds, and which `mkdir` and `fopen` calls the system refuses. */
module FileSystem {

  type byte = b: int | 0 <= b < 256

  /** `cannotCreate` lists directories whose `mkdir` fails (missing parent,
      permissions, the empty path); `cannotOpen` lists destinations whose
      `fopen(..., "wb")` fails. Both are fixed for a run. */
  datatype Fs = Fs(
    dirs: set<string>,
    files: map<string, seq<byte>>,
    cannotCreate: set<string>,
    cannotOpen: set<string>)
}
