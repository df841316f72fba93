/** The name a hello has, on any bytes: well-formed entries up to the first host name, whatever follows. */
module SniExact {
  import opened Bytes
  import opened Types
  import opened TlsParser
  import opened ClientHello
  import Utf8

  // ---------- The names of a server_name extension ----------

  predicate NoHostName(ns: seq<ServerName>) {
    ns == [] || (ns[0].kind != 0 && NoHostName(ns[1..]))
  }

  /** The bytes from `pos` on are entries of other kinds and then a host name. */
  predicate NameBehind(ext: seq<Byte>, pos: nat, ns: seq<ServerName>, name: seq<Byte>, rest: seq<Byte>) {
    && NamesFit(ns) && NoHostName(ns) && |name| < 0x1_0000 && 0 < pos <= |ext|
    && ext[pos..] == PrintNames(ns) + (PrintName(ServerName(0, name)) + rest)
  }

  lemma NextName(ext: seq<Byte>, pos: nat, ns: seq<ServerName>, more: seq<Byte>)
    requires NamesFit(ns) && ns != [] && 0 < pos <= |ext| && ext[pos..] == PrintNames(ns) + more
    ensures NameHere(ext, pos, ns[0]) && ext[pos + 3 + |ns[0].name|..] == PrintNames(ns[1..]) + more
    ensures |PrintNames(ns)| == 3 + |ns[0].name| + |PrintNames(ns[1..])|
  {
    Assoc(PrintName(ns[0]), PrintNames(ns[1..]), more);
    NameAt(ext, pos, ns[0], PrintNames(ns[1..]) + more);
  }

  /** Entries of other kinds stand from `pos` to `p`. */
  predicate OthersTo(ext: seq<Byte>, pos: nat, ns: seq<ServerName>, p: nat)
    decreases |ns|
  {
    if ns == [] then p == pos
    else NameHere(ext, pos, ns[0]) && ns[0].kind != 0 && OthersTo(ext, pos + 3 + |ns[0].name|, ns[1..], p)
  }

  lemma {:induction false} OthersHeld(ext: seq<Byte>, pos: nat, ns: seq<ServerName>, more: seq<Byte>) returns (p: nat)
    requires NamesFit(ns) && NoHostName(ns) && 0 < pos <= |ext| && ext[pos..] == PrintNames(ns) + more
    ensures p == pos + |PrintNames(ns)| <= |ext| && ext[p..] == more && OthersTo(ext, pos, ns, p)
    decreases |ns|
  {
    if ns == [] {
      p := pos;
    } else {
      var others := ns[1..];
      NextName(ext, pos, ns, more);
      p := OthersHeld(ext, pos + 3 + |ns[0].name|, others, more);
    }
  }

  lemma {:induction false} OthersPassed(ext: seq<Byte>, pos: nat, wire: nat, ns: seq<ServerName>, p: nat)
    requires OthersTo(ext, pos, ns, p)
    ensures FindName(ext, pos, wire) == FindName(ext, p, wire)
    decreases |ns|
  {
    if ns == [] {
    } else {
      OtherNameHere(ext, pos, wire, ns[0]);
      OthersPassed(ext, pos + 3 + |ns[0].name|, wire, ns[1..], p);
    }
  }

  lemma {:induction false} NameIsFound(
      ext: seq<Byte>, pos: nat, wire: nat, ns: seq<ServerName>, name: seq<Byte>, rest: seq<Byte>)
    requires NameBehind(ext, pos, ns, name, rest)
    ensures FindName(ext, pos, wire)
            == Complete(TlsClientHello(Some(Utf8.Lossy(name)), wire + pos + |PrintNames(ns)| + 3, |name|))
  {
    var n := ServerName(0, name);
    var p := OthersHeld(ext, pos, ns, PrintName(n) + rest);
    NameAt(ext, p, n, rest);
    OthersPassed(ext, pos, wire, ns, p);
    HostNameHere(ext, p, wire, n);
  }

  lemma HostNameHere(ext: seq<Byte>, pos: nat, wire: nat, n: ServerName)
    requires NameHere(ext, pos, n) && n.kind == 0
    ensures FindName(ext, pos, wire) == Complete(TlsClientHello(Some(Utf8.Lossy(n.name)), wire + pos + 3, |n.name|))
  {
  }

  lemma OtherNameHere(ext: seq<Byte>, pos: nat, wire: nat, n: ServerName)
    requires NameHere(ext, pos, n) && n.kind != 0
    ensures FindName(ext, pos, wire) == FindName(ext, pos + 3 + |n.name|, wire)
  {
  }

  /** An entry whose length leaves the extension, or none. */
  lemma EntryHere(ext: seq<Byte>, pos: nat, n: ServerName)
    requires 0 < pos && pos + 3 <= |ext| && pos + 3 + Word(ext, pos + 1) <= |ext|
    requires n == ServerName(ext[pos], ext[pos + 3..pos + 3 + Word(ext, pos + 1)])
    ensures NameHere(ext, pos, n) && |n.name| < 0x1_0000
    ensures ext[pos..] == PrintName(n) + ext[pos + 3 + |n.name|..]
  {
    var l := Word(ext, pos + 1);
    WordBytes(ext[pos + 1], ext[pos + 2]);
    assert ext[pos..] == [ext[pos], ext[pos + 1], ext[pos + 2]] + ext[pos + 3..pos + 3 + l] + ext[pos + 3 + l..];
    assert PrintName(n) == [ext[pos], ext[pos + 1], ext[pos + 2]] + n.name;
  }

  lemma {:induction false} FoundIsName(ext: seq<Byte>, pos: nat, wire: nat)
    returns (ns: seq<ServerName>, name: seq<Byte>, rest: seq<Byte>)
    requires FindName(ext, pos, wire).HasSni() && 0 < pos
    ensures NameBehind(ext, pos, ns, name, rest)
    decreases |ext| - pos
  {
    var next := pos + 3 + Word(ext, pos + 1);
    var n := ServerName(ext[pos], ext[pos + 3..next]);
    EntryHere(ext, pos, n);
    if ext[pos] == 0 {
      ns, name, rest := [], n.name, ext[next..];
      assert [] + (PrintName(n) + rest) == PrintName(n) + rest;
    } else {
      var more;
      OtherNameHere(ext, pos, wire, n);
      more, name, rest := FoundIsName(ext, next, wire);
      ns := [n] + more;
      NameInFront(n, more, ns, PrintName(ServerName(0, name)) + rest);
    }
  }

  lemma NameInFront(n: ServerName, more: seq<ServerName>, ns: seq<ServerName>, rest: seq<Byte>)
    requires ns == [n] + more && NamesFit(more) && NoHostName(more) && |n.name| < 0x1_0000 && n.kind != 0
    ensures NamesFit(ns) && NoHostName(ns)
    ensures PrintNames(ns) + rest == PrintName(n) + (PrintNames(more) + rest)
  {
    assert ns[1..] == more;
    Assoc(PrintName(n), PrintNames(more), rest);
  }

  lemma {:induction false} NamelessIsNoSni(ext: seq<Byte>, pos: nat, wire: nat)
    ensures FindName(ext, pos, wire) == NO_SNI || FindName(ext, pos, wire).HasSni()
    decreases |ext| - pos
  {
    if pos + 3 <= |ext| {
      var next := pos + 3 + Word(ext, pos + 1);
      if next <= |ext| {
        NamelessIsNoSni(ext, next, wire);
      }
    }
  }

  /** The body of a server_name extension names a host. */
  ghost predicate NamesHost(body: seq<Byte>, before: nat, name: seq<Byte>) {
    |body| >= 2 && exists ns, rest :: NameBehind(body, 2, ns, name, rest) && before == |PrintNames(ns)|
  }

  /**
   * On any bytes the body of a server_name extension gives the first host name that stands whole behind whole
   * entries of other kinds, with its place, and nothing when there is none.
   */
  lemma SniBodyExactly(body: seq<Byte>, wire: nat)
    ensures forall before, name :: NamesHost(body, before, name) ==>
              ParseSni(body, wire) == Complete(TlsClientHello(Some(Utf8.Lossy(name)), wire + 2 + before + 3, |name|))
    ensures (forall before, name :: !NamesHost(body, before, name)) ==> ParseSni(body, wire) == NO_SNI
  {
    forall before, name | NamesHost(body, before, name)
      ensures ParseSni(body, wire) == Complete(TlsClientHello(Some(Utf8.Lossy(name)), wire + 2 + before + 3, |name|))
    {
      var ns, rest :| NameBehind(body, 2, ns, name, rest) && before == |PrintNames(ns)|;
      NameIsFound(body, 2, wire, ns, name, rest);
    }
    if |body| >= 2 {
      NamelessIsNoSni(body, 2, wire);
      if FindName(body, 2, wire).HasSni() {
        var ns, name, rest := FoundIsName(body, 2, wire);
        assert NamesHost(body, |PrintNames(ns)|, name);
      }
    }
  }

  // ---------- The extensions of a block ----------

  predicate NoServerName(es: seq<Extension>) {
    es == [] || (es[0].kind != 0 && NoServerName(es[1..]))
  }

  /** The bytes `h[pos..end]` are extensions of other types and then a server_name extension. */
  predicate ExtensionBehind(
      h: seq<Byte>, pos: nat, end: nat, es: seq<Extension>, body: seq<Byte>, rest: seq<Byte>)
  {
    && ExtensionsFit(es) && NoServerName(es) && |body| < 0x1_0000 && 0 < pos <= end <= |h|
    && h[pos..end] == PrintExtensions(es) + (PrintExtension(Extension(0, body)) + rest)
  }

  lemma NextExtension(h: seq<Byte>, pos: nat, end: nat, es: seq<Extension>, more: seq<Byte>)
    requires ExtensionsFit(es) && es != [] && 0 < pos <= end <= |h| && h[pos..end] == PrintExtensions(es) + more
    ensures ExtensionHere(h, pos, end, es[0]) && h[pos + 4 + |es[0].body|..end] == PrintExtensions(es[1..]) + more
    ensures |PrintExtensions(es)| == 4 + |es[0].body| + |PrintExtensions(es[1..])|
  {
    Assoc(PrintExtension(es[0]), PrintExtensions(es[1..]), more);
    ExtensionAt(h, pos, end, es[0], PrintExtensions(es[1..]) + more);
  }

  /** Extensions of other types stand from `pos` to `p`. */
  predicate ExtensionsTo(h: seq<Byte>, pos: nat, end: nat, es: seq<Extension>, p: nat)
    decreases |es|
  {
    if es == [] then p == pos
    else ExtensionHere(h, pos, end, es[0]) && es[0].kind != 0 && ExtensionsTo(h, pos + 4 + |es[0].body|, end, es[1..], p)
  }

  lemma {:induction false} ExtensionsHeld(h: seq<Byte>, pos: nat, end: nat, es: seq<Extension>, more: seq<Byte>)
    returns (p: nat)
    requires ExtensionsFit(es) && NoServerName(es) && 0 < pos <= end <= |h| && h[pos..end] == PrintExtensions(es) + more
    ensures p == pos + |PrintExtensions(es)| <= end && h[p..end] == more && ExtensionsTo(h, pos, end, es, p)
    decreases |es|
  {
    if es == [] {
      p := pos;
    } else {
      var others := es[1..];
      NextExtension(h, pos, end, es, more);
      p := ExtensionsHeld(h, pos + 4 + |es[0].body|, end, others, more);
    }
  }

  lemma {:induction false} ExtensionsPassed(h: seq<Byte>, pos: nat, end: nat, es: seq<Extension>, p: nat)
    requires end <= |h| && ExtensionsTo(h, pos, end, es, p)
    ensures FindSni(h, pos, end) == FindSni(h, p, end)
    decreases |es|
  {
    if es == [] {
    } else {
      OtherExtensionHere(h, pos, end, es[0]);
      ExtensionsPassed(h, pos + 4 + |es[0].body|, end, es[1..], p);
    }
  }

  lemma ExtensionIsFound(h: seq<Byte>, pos: nat, end: nat, es: seq<Extension>, body: seq<Byte>, rest: seq<Byte>)
    requires ExtensionBehind(h, pos, end, es, body, rest)
    ensures FindSni(h, pos, end) == ParseSni(body, 5 + pos + |PrintExtensions(es)| + 4)
  {
    var e := Extension(0, body);
    var p := ExtensionsHeld(h, pos, end, es, PrintExtension(e) + rest);
    ExtensionAt(h, p, end, e, rest);
    ExtensionsPassed(h, pos, end, es, p);
    ServerNameHere(h, p, end, e);
  }

  lemma ServerNameHere(h: seq<Byte>, pos: nat, end: nat, e: Extension)
    requires ExtensionHere(h, pos, end, e) && e.kind == 0
    ensures FindSni(h, pos, end) == ParseSni(e.body, 5 + pos + 4)
  {
  }

  lemma OtherExtensionHere(h: seq<Byte>, pos: nat, end: nat, e: Extension)
    requires ExtensionHere(h, pos, end, e) && e.kind != 0
    ensures FindSni(h, pos, end) == FindSni(h, pos + 4 + |e.body|, end)
  {
  }

  lemma ExtensionThere(h: seq<Byte>, pos: nat, end: nat, e: Extension)
    requires 0 < pos && pos + 4 <= end <= |h| && pos + 4 + Word(h, pos + 2) <= end
    requires e == Extension(Word(h, pos), h[pos + 4..pos + 4 + Word(h, pos + 2)])
    ensures ExtensionHere(h, pos, end, e) && ExtensionFits(e)
    ensures h[pos..end] == PrintExtension(e) + h[pos + 4 + |e.body|..end]
  {
    var l := Word(h, pos + 2);
    WordBytes(h[pos], h[pos + 1]);
    WordBytes(h[pos + 2], h[pos + 3]);
    assert h[pos..end] == [h[pos], h[pos + 1], h[pos + 2], h[pos + 3]] + h[pos + 4..pos + 4 + l] + h[pos + 4 + l..end];
    assert PrintExtension(e) == [h[pos], h[pos + 1], h[pos + 2], h[pos + 3]] + e.body;
  }

  /** The walk meets a server_name extension, or none before it ends. */
  lemma {:induction false} MetOrNone(h: seq<Byte>, pos: nat, end: nat)
    returns (met: bool, es: seq<Extension>, body: seq<Byte>, rest: seq<Byte>)
    requires 0 < pos <= end <= |h|
    ensures met ==> ExtensionBehind(h, pos, end, es, body, rest)
    ensures !met ==> FindSni(h, pos, end) == NO_SNI
    decreases end - pos
  {
    met, es, body, rest := false, [], [], [];
    if pos + 4 <= end && pos + 4 + Word(h, pos + 2) <= end {
      var next := pos + 4 + Word(h, pos + 2);
      var e := Extension(Word(h, pos), h[pos + 4..next]);
      ExtensionThere(h, pos, end, e);
      if e.kind == 0 {
        met, body, rest := true, e.body, h[next..end];
        BehindNothing(h, pos, end, e, rest);
      } else {
        var more;
        OtherExtensionHere(h, pos, end, e);
        met, more, body, rest := MetOrNone(h, next, end);
        if met {
          es := [e] + more;
          BehindOther(h, pos, end, e, next, more, body, rest);
        }
      }
    }
  }

  lemma BehindNothing(h: seq<Byte>, pos: nat, end: nat, e: Extension, rest: seq<Byte>)
    requires 0 < pos <= end <= |h| && e.kind == 0 && ExtensionFits(e) && h[pos..end] == PrintExtension(e) + rest
    ensures ExtensionBehind(h, pos, end, [], e.body, rest)
  {
    assert [] + (PrintExtension(e) + rest) == PrintExtension(e) + rest;
  }

  lemma BehindOther(
      h: seq<Byte>, pos: nat, end: nat, e: Extension, next: nat, more: seq<Extension>, body: seq<Byte>, rest: seq<Byte>)
    requires 0 < pos <= next <= end <= |h| && e.kind != 0 && ExtensionFits(e)
    requires h[pos..end] == PrintExtension(e) + h[next..end] && ExtensionBehind(h, next, end, more, body, rest)
    ensures ExtensionBehind(h, pos, end, [e] + more, body, rest)
  {
    ExtensionInFront(e, more, [e] + more, PrintExtension(Extension(0, body)) + rest);
  }

  lemma ExtensionInFront(e: Extension, more: seq<Extension>, es: seq<Extension>, rest: seq<Byte>)
    requires es == [e] + more && ExtensionsFit(more) && NoServerName(more) && ExtensionFits(e) && e.kind != 0
    ensures ExtensionsFit(es) && NoServerName(es)
    ensures PrintExtensions(es) + rest == PrintExtension(e) + (PrintExtensions(more) + rest)
  {
    assert es[1..] == more;
    Assoc(PrintExtension(e), PrintExtensions(more), rest);
  }

  /** A block has a server_name extension with this body behind `before` bytes of whole extensions. */
  ghost predicate HasServerName(h: seq<Byte>, pos: nat, end: nat, before: nat, body: seq<Byte>) {
    exists es, rest :: ExtensionBehind(h, pos, end, es, body, rest) && before == |PrintExtensions(es)|
  }

  /**
   * On any bytes an extension block is what its first server_name extension is, if that stands whole behind
   * whole extensions of other types, and has no name otherwise.
   */
  lemma BlockExactly(h: seq<Byte>, pos: nat, end: nat)
    requires 0 < pos <= end <= |h|
    ensures forall before, body :: HasServerName(h, pos, end, before, body) ==>
              FindSni(h, pos, end) == ParseSni(body, 5 + pos + before + 4)
    ensures (forall before, body :: !HasServerName(h, pos, end, before, body)) ==> FindSni(h, pos, end) == NO_SNI
  {
    forall before, body | HasServerName(h, pos, end, before, body)
      ensures FindSni(h, pos, end) == ParseSni(body, 5 + pos + before + 4)
    {
      var es, rest :| ExtensionBehind(h, pos, end, es, body, rest) && before == |PrintExtensions(es)|;
      ExtensionIsFound(h, pos, end, es, body, rest);
    }
    var met, es, body, rest := MetOrNone(h, pos, end);
    if met {
      assert HasServerName(h, pos, end, |PrintExtensions(es)|, body);
    }
  }
}
