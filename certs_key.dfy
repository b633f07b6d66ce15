/**
  Loading a certificate and its private key, `read_certs_key`
  (src/quic/common.rs:20-45). The file system and the two PEM scanners of
  `rustls_pemfile` are parameters: the model says which of their answers the
  function returns, not how they are produced.
 */
module CertsKey {
  import opened Types
  import RustPath

  /** `rustls::Certificate`: DER bytes, never inspected here. */
  datatype Certificate = Certificate(der: seq<byte>)

  /** `rustls::PrivateKey`: DER bytes, never inspected here. */
  datatype PrivateKey = PrivateKey(der: seq<byte>)

  /** `std::fs::read`: the bytes of the file at a path, or the I/O error's text. */
  type FileSystem = string -> Result<seq<byte>, string>

  /**
    `rustls_pemfile::pkcs8_private_keys` or `rsa_private_keys`: the DER payloads
    of the PEM blocks of one kind, in file order, or the parse error's text.
   */
  type PemScanner = seq<byte> -> Result<seq<seq<byte>>, string>

  /** The failures `read_certs_key` can return. */
  datatype KeyError =
    | IoError(cause: string)   // a file could not be read
    | PemError(cause: string)  // a PEM scanner failed
    | KeyNotFound              // neither scanner found a key

  const KeyNotFoundMessage: string := "error reading key"

  /** The text the boxed error carries. */
  function Message(e: KeyError): (m: string)
    ensures e.KeyNotFound? ==> m == KeyNotFoundMessage
    ensures !e.KeyNotFound? ==> m == e.cause
  {
    match e
    case IoError(cause) => cause
    case PemError(cause) => cause
    case KeyNotFound => KeyNotFoundMessage
  }

  /** `key_path.extension().map_or(false, |x| x == "der")`: a literal, case-sensitive test. */
  predicate IsDerPath(keyPath: string)
    ensures IsDerPath(keyPath) ==>
      RustPath.FileName(keyPath).Some? && RustPath.EndsWithExtension(RustPath.FileName(keyPath).value, "der")
  {
    RustPath.Extension(keyPath) == Some("der")
  }

  /**
    The private key `read_certs_key` takes from the key file's bytes. A DER
    path never fails, every key comes from the file, and every PEM error is
    one a scanner returned.
   */
  function SelectKey(keyPath: string, key: seq<byte>, pkcs8: PemScanner, rsa: PemScanner): (r: Result<PrivateKey, KeyError>)
    ensures IsDerPath(keyPath) ==> r.Ok?
    ensures r.Ok? ==>
      r.value.der == key ||
      (pkcs8(key).Ok? && r.value.der in pkcs8(key).value) ||
      (rsa(key).Ok? && r.value.der in rsa(key).value)
    ensures r.Err? ==> !r.error.IoError?
    ensures r.Err? && r.error.PemError? ==>
      (pkcs8(key).Err? && r.error.cause == pkcs8(key).error) ||
      (rsa(key).Err? && r.error.cause == rsa(key).error)
  {
    if IsDerPath(keyPath) then Ok(PrivateKey(key))
    else
      match pkcs8(key)
      case Err(cause) => Err(PemError(cause))
      case Ok(items) =>
        if items != [] then Ok(PrivateKey(items[0]))
        else
          match rsa(key)
          case Err(cause) => Err(PemError(cause))
          case Ok(rsaItems) =>
            if rsaItems != [] then Ok(PrivateKey(rsaItems[0]))
            else Err(KeyNotFound)
  }

  /**
    `read_certs_key`: the certificate file is read first, then the key file.
    When both reads succeed the call succeeds exactly when the key selection
    does: the certificate is then the certificate file's bytes, unchanged, and
    the key is the selected one, and a selection failure is returned as it is.
    An I/O failure is one of the two reads' errors.
   */
  function ReadCertsKey(fs: FileSystem, certPath: string, keyPath: string, pkcs8: PemScanner, rsa: PemScanner)
    : (r: Result<(Certificate, PrivateKey), KeyError>)
    ensures r.Ok? ==>
      fs(certPath).Ok? && fs(keyPath).Ok? &&
      r.value.0 == Certificate(fs(certPath).value) &&
      SelectKey(keyPath, fs(keyPath).value, pkcs8, rsa) == Ok(r.value.1)
    ensures r.Err? && r.error.IoError? ==>
      (fs(certPath).Err? && r.error.cause == fs(certPath).error) ||
      (fs(keyPath).Err? && r.error.cause == fs(keyPath).error)
    ensures fs(certPath).Ok? && fs(keyPath).Ok? ==>
      (r.Ok? <==> SelectKey(keyPath, fs(keyPath).value, pkcs8, rsa).Ok?)
    ensures fs(certPath).Ok? && fs(keyPath).Ok? && SelectKey(keyPath, fs(keyPath).value, pkcs8, rsa).Err? ==>
      r == Err(SelectKey(keyPath, fs(keyPath).value, pkcs8, rsa).error)
  {
    match fs(certPath)
    case Err(cause) => Err(IoError(cause))
    case Ok(cert) =>
      match fs(keyPath)
      case Err(cause) => Err(IoError(cause))
      case Ok(key) =>
        match SelectKey(keyPath, key, pkcs8, rsa)
        case Err(e) => Err(e)
        case Ok(k) => Ok((Certificate(cert), k))
  }

  /** Only the two named files are read: other files cannot change the result. */
  lemma ReadsOnlyTwoFiles(fs: FileSystem, fs': FileSystem, certPath: string, keyPath: string, pkcs8: PemScanner, rsa: PemScanner)
    requires fs(certPath) == fs'(certPath) && fs(keyPath) == fs'(keyPath)
    ensures ReadCertsKey(fs, certPath, keyPath, pkcs8, rsa) == ReadCertsKey(fs', certPath, keyPath, pkcs8, rsa)
  {
  }

  /** A name has extension `der` iff it is longer than four characters and ends in `.der`. */
  lemma EndsWithDer(n: string)
    ensures RustPath.EndsWithExtension(n, "der") <==> |n| > 4 && n[|n| - 4..] == ".der"
  {
    if |n| > 4 {
      assert n[|n| - 4..] == [n[|n| - 4]] + n[|n| - 3..];
    }
  }

  /** A key path is DER iff its file name ends in `.der` with text before the dot. */
  lemma IsDerPathIff(keyPath: string)
    ensures IsDerPath(keyPath) <==>
      var name := RustPath.FileName(keyPath);
      name.Some? && |name.value| > 4 && name.value[|name.value| - 4..] == ".der"
  {
    RustPath.ExtensionIff(keyPath, "der");
    var name := RustPath.FileName(keyPath);
    if name.Some? {
      EndsWithDer(name.value);
    }
  }

  /** A `.der` file name is recognised in a directory and behind a trailing separator. */
  lemma DerPathExamples()
    ensures IsDerPath("certs/key.der")
    ensures IsDerPath("key.der/")
  {
    assert "certs/key.der" == "certs" + ['/'] + "key.der";
    RustPath.FileNameOfJoin("certs", "key.der");
    IsDerPathIff("certs/key.der");
    assert "key.der/" == "key.der" + ['/'];
    RustPath.FileNameTrailingSeparator("key.der");
    RustPath.FileNameOfName("key.der");
    IsDerPathIff("key.der/");
  }

  /** The comparison is case-sensitive: `key.DER` is read as PEM. */
  lemma UpperCaseDerIsNotDer()
    ensures !IsDerPath("key.DER")
  {
    RustPath.FileNameOfName("key.DER");
    IsDerPathIff("key.DER");
  }

  /** A hidden file `.der` has no extension at all. */
  lemma HiddenDerIsNotDer()
    ensures !IsDerPath(".der")
  {
    RustPath.FileNameOfName(".der");
    IsDerPathIff(".der");
  }

  /** A path ending in `..` has no file name, whatever comes before it. */
  lemma ParentOfDerIsNotDer()
    ensures !IsDerPath("key.der/..")
  {
    assert "key.der/.." == "key.der" + ['/', '.', '.'];
    RustPath.FileNameParentDir("key.der");
  }

  /** A read failure of either file is returned as it is, the certificate's first. */
  lemma ReadFailurePropagates(fs: FileSystem, certPath: string, keyPath: string, pkcs8: PemScanner, rsa: PemScanner)
    ensures fs(certPath).Err? ==> ReadCertsKey(fs, certPath, keyPath, pkcs8, rsa) == Err(IoError(fs(certPath).error))
    ensures fs(certPath).Ok? && fs(keyPath).Err? ==>
      ReadCertsKey(fs, certPath, keyPath, pkcs8, rsa) == Err(IoError(fs(keyPath).error))
  {
  }

  /** Loading with a `.der` key path gives both files' bytes unchanged, whatever the scanners. */
  lemma DerKeyFileLoadsVerbatim(fs: FileSystem, certPath: string, keyPath: string, pkcs8: PemScanner, rsa: PemScanner)
    requires fs(certPath).Ok? && fs(keyPath).Ok? && IsDerPath(keyPath)
    ensures ReadCertsKey(fs, certPath, keyPath, pkcs8, rsa) ==
      Ok((Certificate(fs(certPath).value), PrivateKey(fs(keyPath).value)))
  {
  }

  /** A `.der` key file is the key, byte for byte, and neither scanner is looked at. */
  lemma DerKeyVerbatim(keyPath: string, key: seq<byte>, pkcs8: PemScanner, rsa: PemScanner, pkcs8': PemScanner, rsa': PemScanner)
    requires IsDerPath(keyPath)
    ensures SelectKey(keyPath, key, pkcs8, rsa) == Ok(PrivateKey(key))
    ensures SelectKey(keyPath, key, pkcs8, rsa) == SelectKey(keyPath, key, pkcs8', rsa')
  {
  }

  /** Otherwise the first PKCS#8 key wins, whatever RSA keys the file also holds. */
  lemma Pkcs8First(keyPath: string, key: seq<byte>, pkcs8: PemScanner, rsa: PemScanner, rsa': PemScanner)
    requires !IsDerPath(keyPath)
    requires pkcs8(key).Ok? && pkcs8(key).value != []
    ensures SelectKey(keyPath, key, pkcs8, rsa) == Ok(PrivateKey(pkcs8(key).value[0]))
    ensures SelectKey(keyPath, key, pkcs8, rsa) == SelectKey(keyPath, key, pkcs8, rsa')
  {
  }

  /** A PKCS#8 parse error is returned as it is, and the RSA scanner is not looked at. */
  lemma Pkcs8ErrorPropagates(keyPath: string, key: seq<byte>, pkcs8: PemScanner, rsa: PemScanner)
    requires !IsDerPath(keyPath) && pkcs8(key).Err?
    ensures SelectKey(keyPath, key, pkcs8, rsa) == Err(PemError(pkcs8(key).error))
  {
  }

  /** The RSA scan decides only when the PKCS#8 scan found nothing. */
  lemma RsaFallback(keyPath: string, key: seq<byte>, pkcs8: PemScanner, rsa: PemScanner)
    requires !IsDerPath(keyPath) && pkcs8(key) == Ok([])
    ensures rsa(key).Err? ==> SelectKey(keyPath, key, pkcs8, rsa) == Err(PemError(rsa(key).error))
    ensures rsa(key).Ok? && rsa(key).value != [] ==>
      SelectKey(keyPath, key, pkcs8, rsa) == Ok(PrivateKey(rsa(key).value[0]))
    ensures rsa(key) == Ok([]) ==> SelectKey(keyPath, key, pkcs8, rsa) == Err(KeyNotFound)
  {
  }

  /**
    Every key returned came from the key file: its raw bytes for a `.der`
    path, else the first PKCS#8 item, else the first RSA item. And the
    "error reading key" failure happens exactly when both scans are empty.
   */
  lemma KeyProvenance(keyPath: string, key: seq<byte>, pkcs8: PemScanner, rsa: PemScanner)
    ensures var r := SelectKey(keyPath, key, pkcs8, rsa);
      r.Ok? ==>
        (IsDerPath(keyPath) && r.value.der == key) ||
        (!IsDerPath(keyPath) && pkcs8(key).Ok? && pkcs8(key).value != [] && r.value.der == pkcs8(key).value[0]) ||
        (!IsDerPath(keyPath) && pkcs8(key) == Ok([]) && rsa(key).Ok? && rsa(key).value != [] && r.value.der == rsa(key).value[0])
    ensures SelectKey(keyPath, key, pkcs8, rsa) == Err(KeyNotFound) <==>
      !IsDerPath(keyPath) && pkcs8(key) == Ok([]) && rsa(key) == Ok([])
  {
  }
}
