/** Display length of terminal text: the `length` helper of
    src/Widgets/Table.php, which deletes every SGR escape sequence
    (`ESC [ ... m`, the Select Graphic Rendition control function of
    section 8.3.117 of ECMA-48, written in the control-sequence syntax of
    section 5.4) and then counts the remaining code points. */
module Ansi {
  import opened Text

  const ESC: char := '\U{1B}'

  /** The SGR control sequence with parameter string `params`. */
  function Sgr(params: string): string
  {
    [ESC, '['] + params + ['m']
  }

  /** `s` begins with a match of the pattern `ESC '[' [^m]* 'm'`. */
  predicate StartsWithSgr(s: string)
  {
    |s| >= 2 && s[0] == ESC && s[1] == '[' && 'm' in s[2..]
  }

  /** Length of the leading match: it ends at the first 'm' after `ESC [`. */
  function SgrEnd(s: string): (n: nat)
    requires StartsWithSgr(s)
    ensures 3 <= n <= |s| && s[n - 1] == 'm'
    ensures 'm' !in s[2..n - 1]
  {
    var k := IndexOf(s[2..], 'm');
    assert s[2..][..k] == s[2..k + 2];
    k + 3
  }

  /** Deletes, scanning left to right, every non-overlapping match of
      `ESC '[' [^m]* 'm'`, as the source's regular-expression replace does. */
  function Strip(s: string): (r: string)
    ensures |r| <= |s|
    ensures ESC !in s ==> r == s
    decreases |s|
  {
    if |s| == 0 then ""
    else if StartsWithSgr(s) then Strip(s[SgrEnd(s)..])
    else [s[0]] + Strip(s[1..])
  }

  /** Display length: code points left after stripping SGR sequences. */
  function Length(s: string): (n: nat)
    ensures n <= |s|
    ensures ESC !in s ==> n == |s|
  {
    |Strip(s)|
  }

  /** Escape-free text passes through the scan unchanged and the scan
      continues where it ends. */
  lemma {:induction false} StripAfterPlain(a: string, b: string)
    requires ESC !in a
    ensures Strip(a + b) == a + Strip(b)
    decreases |a|
  {
    if |a| > 0 {
      var s := a + b;
      assert s[0] == a[0];
      assert s[1..] == a[1..] + b;
      StripAfterPlain(a[1..], b);
    } else {
      assert a + b == b;
    }
  }

  /** A well-formed SGR sequence is deleted whole. */
  lemma StripAfterSgr(params: string, b: string)
    requires 'm' !in params
    ensures Strip(Sgr(params) + b) == Strip(b)
  {
    var s := Sgr(params) + b;
    assert s[2..] == params + ['m'] + b;
    IndexOfAfterPrefix(params, 'm', b);
    assert s[|params| + 3..] == b;
  }

  /** Appending a character other than 'm' can neither complete a pending
      `ESC [` nor disturb an earlier match: the display grows by exactly
      that character. This is what makes the padding loop of `renderCell`
      terminate. */
  lemma {:induction false} StripAppendChar(v: string, c: char)
    requires c != 'm'
    ensures Strip(v + [c]) == Strip(v) + [c]
    decreases |v|
  {
    var s := v + [c];
    if |v| == 0 {
      assert s == [c];
      assert s[1..] == [];
    } else if StartsWithSgr(v) {
      var n := SgrEnd(v);
      assert s[2..] == v[2..] + [c];
      assert v[2..][..n - 3] == s[2..][..n - 3];
      assert StartsWithSgr(s);
      IndexOfPrefixStable(v[2..], [c], 'm');
      assert SgrEnd(s) == n;
      assert s[n..] == v[n..] + [c];
      StripAppendChar(v[n..], c);
    } else {
      if |v| >= 2 && v[0] == ESC && v[1] == '[' {
        assert s[2..] == v[2..] + [c];
      }
      assert !StartsWithSgr(s);
      assert s[1..] == v[1..] + [c];
      StripAppendChar(v[1..], c);
    }
  }

  lemma IndexOfPrefixStable<T>(a: seq<T>, b: seq<T>, x: T)
    requires x in a
    ensures x in a + b && IndexOf(a + b, x) == IndexOf(a, x)
  {
    var k := IndexOf(a, x);
    var s := a + b;
    assert s[..k] == a[..k];
    assert s[k] == x;
  }

  /** Display length grows by one per appended non-'m' character. */
  lemma LengthAppendChar(v: string, c: char)
    requires c != 'm'
    ensures Length(v + [c]) == Length(v) + 1
  {
    StripAppendChar(v, c);
  }

  // ---------------------------------------------------------------------
  // Text as a mixture of visible characters and SGR sequences

  /** One piece of terminal text: a visible character or an SGR sequence. */
  datatype Piece = Visible(c: char) | Control(params: string)

  predicate WellFormed(p: Piece)
  {
    match p
    case Visible(c) => c != ESC
    case Control(params) => 'm' !in params
  }

  function Flatten(ps: seq<Piece>): string
  {
    if |ps| == 0 then ""
    else
      (match ps[0]
       case Visible(c) => [c]
       case Control(params) => Sgr(params))
      + Flatten(ps[1..])
  }

  /** The visible characters, in order. */
  function VisibleText(ps: seq<Piece>): string
  {
    if |ps| == 0 then ""
    else (if ps[0].Visible? then [ps[0].c] else "") + VisibleText(ps[1..])
  }

  /** Stripping recovers exactly the visible characters of text built from
      visible characters and SGR sequences, in any interleaving; its
      display length is their number. */
  lemma {:induction false} StripFlatten(ps: seq<Piece>)
    requires forall i :: 0 <= i < |ps| ==> WellFormed(ps[i])
    ensures Strip(Flatten(ps)) == VisibleText(ps)
    ensures Length(Flatten(ps)) == |VisibleText(ps)|
    decreases |ps|
  {
    if |ps| > 0 {
      StripFlatten(ps[1..]);
      match ps[0]
      case Visible(c) =>
        assert ESC !in [c];
        StripAfterPlain([c], Flatten(ps[1..]));
      case Control(params) =>
        StripAfterSgr(params, Flatten(ps[1..]));
    }
  }

  /** Inserting an SGR sequence into text, anywhere after an escape-free
      prefix, does not change its display length. */
  lemma LengthIgnoresSgr(a: string, params: string, b: string)
    requires ESC !in a && 'm' !in params
    ensures Length(a + Sgr(params) + b) == Length(a + b)
  {
    StripAfterPlain(a, Sgr(params) + b);
    assert a + Sgr(params) + b == a + (Sgr(params) + b);
    StripAfterSgr(params, b);
    StripAfterPlain(a, b);
  }
}
