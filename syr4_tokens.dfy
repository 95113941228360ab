/**
 Handshake tokens exchanged with SYRTHES during coupling setup.

 Every token travels as a fixed 32-character frame. The fluid side sends the
 options token "coupling:type:" followed by a boundary flag, a volume flag and
 a conservativity flag, and after mesh location the ready token
 "coupling:start". Tokens are compared as C strings: a buffer is read up to its
 first NUL character, and a received 32-character frame is terminated right
 after its last character.
 */
module Syr4Tokens {

  import opened Wrappers

  const Nul: char := '\0'

  /** Number of characters sent or received for one token. */
  const FrameLength: nat := 32

  const TypePrefix: string := "coupling:type:"
  const StartToken: string := "coupling:start"

  /** Positions of the three option flags in the options token. */
  const BoundaryIndex: nat := 14
  const VolumeIndex: nat := 15
  const ConservativityIndex: nat := 16

  /** Length of the options token, without its terminator. */
  const OptionsLength: nat := 17

  predicate NoNul(s: string) {
    forall i :: 0 <= i < |s| ==> s[i] != Nul
  }

  /** The C string a character buffer holds: everything before its first NUL. */
  function CString(buf: string): (s: string)
    ensures |s| <= |buf| && NoNul(s) && s == buf[..|s|]
    ensures |s| < |buf| ==> buf[|s|] == Nul
  {
    if buf == [] || buf[0] == Nul then [] else [buf[0]] + CString(buf[1..])
  }

  /** A buffer holds the C string t exactly when t is a NUL-free prefix of it
      that is followed by a NUL or by the end of the buffer. */
  lemma {:induction false} CStringIs(buf: string, t: string)
    ensures CString(buf) == t <==>
      NoNul(t) && |t| <= |buf| && buf[..|t|] == t && (|t| < |buf| ==> buf[|t|] == Nul)
  {
    var s := CString(buf);
    if NoNul(t) && |t| <= |buf| && buf[..|t|] == t && (|t| < |buf| ==> buf[|t|] == Nul) {
      if |s| < |t| {
        assert false;
      } else if |t| < |s| {
        assert false;
      }
    }
  }

  /** The 32 characters put on the wire for a token: its C string, cut to
      32 characters and padded with NULs, as strncpy into a 33-byte buffer does. */
  function Frame(s: string): (w: string)
    ensures |w| == FrameLength
  {
    var c := CString(s);
    var t := if |c| <= FrameLength then c else c[..FrameLength];
    t + seq(FrameLength - |t|, _ => Nul)
  }

  /** Reading a frame back as a C string yields the token, cut to 32 characters. */
  lemma FrameRoundTrip(s: string)
    requires NoNul(s)
    ensures CString(Frame(s)) == if |s| <= FrameLength then s else s[..FrameLength]
  {
    var c := CString(s);
    CStringIs(s, s);
    assert c == s;
    var t := if |s| <= FrameLength then s else s[..FrameLength];
    var w := Frame(s);
    assert w[..|t|] == t;
    CStringIs(w, t);
  }

  function BoundaryFlag(surface: bool): char {
    if surface then 'b' else ' '
  }

  function VolumeFlag(volume: bool): char {
    if volume then 'v' else ' '
  }

  /** The conservativity flag: '0' when the forcing flag is zero, '1' otherwise. */
  function ConservativityFlag(conservativity: int): char {
    if conservativity == 0 then '0' else '1'
  }

  /** The options token the fluid side sends: the flags say whether a face
      criterion and a cell criterion were given and whether conservativity is forced. */
  function OptionsToken(surface: bool, volume: bool, conservativity: int): (t: string)
    ensures |t| == OptionsLength && NoNul(t)
    ensures t[..BoundaryIndex] == TypePrefix
  {
    TypePrefix + [BoundaryFlag(surface), VolumeFlag(volume), ConservativityFlag(conservativity)]
  }

  /** Coupling options as the partner reads them back from an options token. */
  datatype CouplingOptions = CouplingOptions(surface: bool, volume: bool, conservative: bool)

  function DecodeOptions(t: string): (o: Option<CouplingOptions>)
    ensures o.Some? ==> |t| == OptionsLength && t[..BoundaryIndex] == TypePrefix
  {
    if |t| == OptionsLength && t[..BoundaryIndex] == TypePrefix
       && t[BoundaryIndex] in {'b', ' '} && t[VolumeIndex] in {'v', ' '}
       && t[ConservativityIndex] in {'0', '1'}
    then Some(CouplingOptions(t[BoundaryIndex] == 'b', t[VolumeIndex] == 'v',
                              t[ConservativityIndex] == '1'))
    else None
  }

  lemma DecodeEncode(surface: bool, volume: bool, conservativity: int)
    ensures DecodeOptions(OptionsToken(surface, volume, conservativity))
            == Some(CouplingOptions(surface, volume, conservativity != 0))
  {
  }

  /** A string that decodes to a set of options is the token those options encode. */
  lemma EncodeDecode(t: string)
    requires DecodeOptions(t).Some?
    ensures var o := DecodeOptions(t).value;
      OptionsToken(o.surface, o.volume, if o.conservative then 1 else 0) == t
  {
    var o := DecodeOptions(t).value;
    var u := OptionsToken(o.surface, o.volume, if o.conservative then 1 else 0);
    assert u[..BoundaryIndex] == t[..BoundaryIndex];
    assert forall i :: 0 <= i < OptionsLength ==> u[i] == t[i] by {
      forall i | 0 <= i < OptionsLength
        ensures u[i] == t[i]
      {
        if i < BoundaryIndex {
          assert u[i] == u[..BoundaryIndex][i] && t[i] == t[..BoundaryIndex][i];
        }
      }
    }
  }

  /** The received options frame after its conservativity flag has been
      overwritten with the local one, as the fluid side does before comparing. */
  function PatchedOptions(recv: string, local: string): (p: string)
    requires |recv| == FrameLength && |local| == OptionsLength
    ensures |p| == FrameLength
  {
    recv[ConservativityIndex := local[ConservativityIndex]]
  }

  /** The options check: the patched received frame must read as the local token. */
  predicate OptionsCompatible(recv: string, local: string): (ok: bool)
    requires |recv| == FrameLength && |local| == OptionsLength
    ensures ok && NoNul(local) ==>
      PatchedOptions(recv, local)[..OptionsLength] == local && recv[OptionsLength] == Nul
  {
    CStringIs(local, local);
    CStringIs(PatchedOptions(recv, local), CString(local));
    CString(PatchedOptions(recv, local)) == CString(local)
  }

  /** A received frame passes the options check exactly when its first 16
      characters match the local token and its 18th character is a NUL: the
      conservativity position may hold anything. */
  lemma OptionsCompatibleIff(recv: string, surface: bool, volume: bool, conservativity: int)
    requires |recv| == FrameLength
    ensures var local := OptionsToken(surface, volume, conservativity);
      OptionsCompatible(recv, local) <==>
        recv[..ConservativityIndex] == local[..ConservativityIndex] && recv[OptionsLength] == Nul
  {
    var local := OptionsToken(surface, volume, conservativity);
    var p := PatchedOptions(recv, local);
    CStringIs(local, local);
    CStringIs(p, local);
    if recv[..ConservativityIndex] == local[..ConservativityIndex] && recv[OptionsLength] == Nul {
      assert p[..OptionsLength] == local;
    }
    if p[..OptionsLength] == local {
      assert recv[..ConservativityIndex] == p[..OptionsLength][..ConservativityIndex];
    }
  }

  /** Two sides that frame their options tokens agree exactly when they agree
      on surface and volume coupling, whatever their conservativity flags. */
  lemma NegotiationAgreement(s1: bool, v1: bool, c1: int, s2: bool, v2: bool, c2: int)
    ensures OptionsCompatible(Frame(OptionsToken(s2, v2, c2)), OptionsToken(s1, v1, c1))
            <==> s1 == s2 && v1 == v2
  {
    var remote := OptionsToken(s2, v2, c2);
    var local := OptionsToken(s1, v1, c1);
    var w := Frame(remote);
    assert w[..OptionsLength] == remote;
    OptionsCompatibleIff(w, s1, v1, c1);
    if s1 != s2 {
      assert w[..ConservativityIndex][BoundaryIndex] != local[..ConservativityIndex][BoundaryIndex];
    }
    if v1 != v2 {
      assert w[..ConservativityIndex][VolumeIndex] != local[..ConservativityIndex][VolumeIndex];
    }
    if s1 == s2 && v1 == v2 {
      assert w[..ConservativityIndex] == remote[..ConservativityIndex] == local[..ConservativityIndex];
    }
  }

  /** The ready check after mesh location: the received frame must read as "coupling:start". */
  predicate StartAccepted(recv: string): (ok: bool)
    requires |recv| == FrameLength
    ensures ok ==> recv[..|StartToken|] == StartToken && recv[|StartToken|] == Nul
  {
    CString(recv) == StartToken
  }

  /** A frame is accepted as the ready token exactly when it starts with
      "coupling:start" followed by a NUL. */
  lemma StartAcceptedIff(recv: string)
    requires |recv| == FrameLength
    ensures StartAccepted(recv) <==> recv[..|StartToken|] == StartToken && recv[|StartToken|] == Nul
  {
    CStringIs(recv, StartToken);
  }

  /** The framed ready token is accepted, and a framed options token never is. */
  lemma StartRoundTrip(surface: bool, volume: bool, conservativity: int)
    ensures StartAccepted(Frame(StartToken))
    ensures !StartAccepted(Frame(OptionsToken(surface, volume, conservativity)))
  {
    FrameRoundTrip(StartToken);
    var t := OptionsToken(surface, volume, conservativity);
    var w := Frame(t);
    FrameRoundTrip(t);
    assert w[..OptionsLength] == t;
    assert w[..|StartToken|][9] == t[9] != StartToken[9];
  }
}
