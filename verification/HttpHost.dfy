/** Rewriting the Host header of an HTTP request. */
module HttpHost {
  import opened Bytes
  import opened Types
  import opened Utf8
  import opened HttpParser
  import opened HttpLines

  datatype Mode = MixedCase | ExtraSpace | Tab | LineWrapping | DuplicateHeader

  const TAB: Byte := 9

  /** Host: decoy.invalid */
  const DECOY: seq<Byte> :=
    [72, 111, 115, 116, 58, 32, 100, 101, 99, 111, 121, 46, 105, 110, 118, 97, 108, 105, 100]

  /** The white space a mode puts after the colon. */
  function Gap(mode: Mode): seq<Byte> {
    match mode
    case ExtraSpace => [SPACE, SPACE, SPACE]
    case Tab => [TAB]
    case LineWrapping => []
    case _ => [SPACE]
  }

  /** The lines that stand for the Host line. */
  function Format(mode: Mode, name: seq<Byte>, value: seq<Byte>): (ls: seq<seq<Byte>>)
    ensures |ls| >= 1
  {
    match mode
    case LineWrapping => [name + [COLON], [SPACE] + value]
    case DuplicateHeader => [name + [COLON] + Gap(mode) + value, DECOY]
    case _ => [name + [COLON] + Gap(mode) + value]
  }

  function FormatLine(mode: Mode, line: seq<Byte>, colon: nat): (ls: seq<seq<Byte>>)
    requires colon < |line|
    ensures |ls| >= 1
  {
    Format(mode, line[..colon], Trim(line[colon + 1..]))
  }

  function RewriteLines(mode: Mode, ls: seq<seq<Byte>>): (r: seq<seq<Byte>>)
    ensures |r| >= |ls|
  {
    if ls == [] then []
    else if HostColon(ls[0]).Some? then FormatLine(mode, ls[0], HostColon(ls[0]).value) + ls[1..]
    else [ls[0]] + RewriteLines(mode, ls[1..])
  }

  /** The case variants of the header name. */
  const VARIANTS: seq<seq<Byte>> := [
    [104, 79, 115, 84], [72, 79, 83, 84], [72, 111, 83, 116], [104, 111, 83, 84], [72, 79, 115, 116], [104, 111, 115, 84]]

  /** A line feed, the word host in lower case, and a colon. */
  const NEEDLE: seq<Byte> := [10, 104, 111, 115, 116, 58]

  predicate NeedleAt(s: seq<Byte>, i: nat) {
    i + 6 <= |s| && s[i..i + 6] == NEEDLE
  }

  function FindNeedle(s: seq<Byte>, i: nat): (k: Option<nat>)
    ensures k.Some? ==> i <= k.value && NeedleAt(s, k.value) && forall j :: i <= j < k.value ==> !NeedleAt(s, j)
    decreases |s| - i
  {
    if i + 6 > |s| then None else if NeedleAt(s, i) then Some(i) else FindNeedle(s, i + 1)
  }

  /** `s.is_char_boundary(i)` */
  predicate CharBoundary(s: seq<Byte>, i: nat) {
    i == 0 || i == |s| || (i < |s| && !IsCont(s, i))
  }

  /**
   * Rename the header at the offset found in `lower`, the text in lower case. The offset is used on the
   * text itself, where it may lie elsewhere; slicing inside a character panics.
   */
  function RenameHost(s: seq<Byte>, lower: seq<Byte>, variant: seq<Byte>): Result<seq<Byte>, Error> {
    match FindNeedle(lower, 0)
    case None => Ok(s)
    case Some(k) =>
      if CharBoundary(s, k + 1) && CharBoundary(s, k + 5) then Ok(s[..k + 1] + variant + s[k + 5..]) else Err(Panic)
  }

  /** The payload of the modes that write the Host line anew. */
  function Reformatted(mode: Mode, payload: seq<Byte>): seq<Byte> {
    JoinLines(RewriteLines(mode, Lines(payload)))
  }

  function Replacing(text: Result<seq<Byte>, Error>): Result<DesyncAction, Error> {
    match text
    case Ok(payload) => Ok(Replace(payload))
    case Err(error) => Err(error)
  }

  /** `draw` is the variant the mixed-case mode draws, `lower` the payload's text in lower case. */
  method Apply(payload: seq<Byte>, lower: seq<Byte>, protocol: AppProtocol, mode: Mode, draw: nat)
    returns (r: Result<DesyncAction, Error>)
    requires draw < |VARIANTS|
    requires Valid(payload) ==> LowerOf(payload, lower)
    ensures r == if !protocol.HttpRequest? || protocol.host.None? || !Valid(payload) then Err(NotApplicable)
                 else if mode.MixedCase? then Replacing(RenameHost(payload, lower, VARIANTS[draw]))
                 else Ok(Replace(Reformatted(mode, payload)))
  {
    if !protocol.HttpRequest? || protocol.host.None? {
      return Err(NotApplicable);
    }
    if !Valid(payload) {
      return Err(NotApplicable);
    }
    if mode.MixedCase? {
      var renamed := ReplaceHeaderName(payload, lower, VARIANTS[draw]);
      return Replacing(renamed);
    }
    var rewritten := ReplaceHostLine(payload, mode);
    return Ok(Replace(rewritten));
  }

  method ReplaceHeaderName(payload: seq<Byte>, lower: seq<Byte>, replacement: seq<Byte>)
    returns (r: Result<seq<Byte>, Error>)
    ensures r == RenameHost(payload, lower, replacement)
  {
    var found := FindNeedle(lower, 0);
    if found.None? {
      return Ok(payload);
    }
    var pos := found.value;
    if !CharBoundary(payload, pos + 1) || !CharBoundary(payload, pos + 5) {
      return Err(Panic);
    }
    var result := payload[..pos + 1];
    result := result + replacement;
    result := result + payload[pos + 5..];
    return Ok(result);
  }

  method ReplaceHostLine(payload: seq<Byte>, mode: Mode) returns (r: seq<Byte>)
    ensures r == Reformatted(mode, payload)
  {
    var lines := Lines(payload);
    var result: seq<seq<Byte>> := [];
    var found := false;
    ghost var all := RewriteLines(mode, lines);
    while lines != []
      invariant result + (if found then lines else RewriteLines(mode, lines)) == all
      decreases |lines|
    {
      var line := lines[0];
      var colon := Colon(line);
      if !found && colon.Some? && EqIgnoreCase(line[..colon.value], HOST) {
        var formatted := Format(mode, line[..colon.value], Trim(line[colon.value + 1..]));
        Assoc(result, formatted, lines[1..]);
        result := result + formatted;
        found := true;
      } else {
        Assoc(result, [line], if found then lines[1..] else RewriteLines(mode, lines[1..]));
        assert lines == [line] + lines[1..];
        result := result + [line];
      }
      lines := lines[1..];
    }
    assert result == all;
    return JoinLines(result);
  }
}
