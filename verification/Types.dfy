/** Values shared by the parsers, the techniques and the relay. */
module Types {
  import opened Bytes

  datatype Option<+T> = None | Some(value: T)

  datatype Result<+T, +E> = Ok(value: T) | Err(error: E)

  /** Detected application protocol; a string is the sequence of its UTF-8 bytes. */
  datatype AppProtocol =
    | TlsClientHello(sni: Option<seq<Byte>>, sniOffset: nat, sniLen: nat)
    | HttpRequest(verb: seq<Byte>, host: Option<seq<Byte>>, hostOffset: nat)
    | QuicInitial(dcid: seq<Byte>, scid: seq<Byte>)
    | Unknown

  datatype DesyncAction =
    | PassThrough
    | Replace(data: seq<Byte>)
    | Split(chunks: seq<seq<Byte>>)
    | InjectBefore(fakes: seq<seq<Byte>>)

  /** `Panic` stands for a run that aborts instead of returning. */
  datatype Error = NotApplicable | Panic
}
