/** The Rust generation's checksum functions: the algorithm names stored in
    a snapshot header, and `compute` / `compute_file` as dispatch over two
    digests that are given as parameters (SHA-256 and MD5 themselves are
    not part of this model). */
module ChecksumFunction {
  import opened Wrappers
  import opened Text

  datatype ChecksumFunction = SHA256 | MD5

  /** The two digest algorithms, each mapping bytes to its lowercase hex
      digest string. */
  datatype Digests = Digests(sha256: seq<byte> -> string, md5: seq<byte> -> string)

  /** The file system as far as reading is concerned: the bytes of every
      readable file; a path that is not a key cannot be read. */
  type Files = map<string, seq<byte>>

  /** `checksum_function_from_str`: exactly "sha256" and "md5" are names,
      and a name read back prints as itself. */
  function FromStr(s: string): (r: Result<ChecksumFunction>)
    ensures r.Ok? <==> s == "sha256" || s == "md5"
    ensures r.Ok? ==> ToStr(r.value) == s
  {
    match s
    case "sha256" => Ok(SHA256)
    case "md5" => Ok(MD5)
    case _ => Err("invalid checksum function: " + s)
  }

  function ToStr(f: ChecksumFunction): string {
    match f
    case SHA256 => "sha256"
    case MD5 => "md5"
  }

  function Compute(d: Digests, f: ChecksumFunction, data: seq<byte>): string {
    match f
    case SHA256 => d.sha256(data)
    case MD5 => d.md5(data)
  }

  function ComputeFileSha256(d: Digests, files: Files, path: string): Result<string> {
    if path !in files then Err("unable to read file: " + path) else Ok(d.sha256(files[path]))
  }

  function ComputeFileMd5(d: Digests, files: Files, path: string): Result<string> {
    if path !in files then Err("unable to read file: " + path) else Ok(d.md5(files[path]))
  }

  function ComputeFile(d: Digests, f: ChecksumFunction, files: Files, path: string): Result<string> {
    match f
    case SHA256 => ComputeFileSha256(d, files, path)
    case MD5 => ComputeFileMd5(d, files, path)
  }

  lemma FromStrNames()
    ensures FromStr("sha256") == Ok(SHA256)
    ensures FromStr("md5") == Ok(MD5)
  {
  }

  /** Every function's name reads back as that function. */
  lemma FromStrToStr(f: ChecksumFunction)
    ensures FromStr(ToStr(f)) == Ok(f)
  {
  }

  lemma ToStrInjective(f: ChecksumFunction, g: ChecksumFunction)
    requires ToStr(f) == ToStr(g)
    ensures f == g
  {
    FromStrToStr(f);
    FromStrToStr(g);
  }

  /** Hashing a file is hashing its contents; an unreadable file is an error. */
  lemma ComputeFileIsCompute(d: Digests, f: ChecksumFunction, files: Files, path: string)
    ensures path in files ==> ComputeFile(d, f, files, path) == Ok(Compute(d, f, files[path]))
    ensures path !in files ==> ComputeFile(d, f, files, path).Err?
  {
  }
}
