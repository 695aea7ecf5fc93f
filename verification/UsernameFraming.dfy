/** The text framing around an encrypted username: an armored block becomes one line of JSON text and back. */
module UsernameFraming {
  import opened Basics

  const MARKER := "<wmcoMarker>"
  const START_TAG := "-----BEGIN ENCRYPTED DATA-----"
  const END_TAG := "-----END ENCRYPTED DATA-----"

  function TrimPrefix(s: string, p: string): string {
    if p <= s then s[|p|..] else s
  }

  predicate HasSuffix(s: string, p: string) {
    |p| <= |s| && s[|s| - |p|..] == p
  }

  function TrimSuffix(s: string, p: string): string {
    if HasSuffix(s, p) then s[..|s| - |p|] else s
  }

  function TrimLeft(s: string): string {
    if s != [] && s[0] == '\n' then TrimLeft(s[1..]) else s
  }

  function TrimRight(s: string): string {
    if s != [] && s[|s| - 1] == '\n' then TrimRight(s[..|s| - 1]) else s
  }

  function Trim(s: string): string {
    TrimRight(TrimLeft(s))
  }

  /** Every newline replaced by the marker. */
  function Mark(k: string, s: string): string {
    if s == [] then [] else (if s[0] == '\n' then k else [s[0]]) + Mark(k, s[1..])
  }

  /** Every marker replaced by a newline, from the left. */
  function Unmark(k: string, s: string): string
    requires k != []
  {
    if s == [] then []
    else if k <= s then "\n" + Unmark(k, s[|k|..])
    else [s[0]] + Unmark(k, s[1..])
  }

  /** What is stored for an armored block. */
  function Store(block: string): string {
    Mark(MARKER, Trim(TrimSuffix(TrimPrefix(block, START_TAG), END_TAG)))
  }

  function Wrap(body: string): string {
    START_TAG + "\n\n" + body + "\n" + END_TAG
  }

  /** The armored block that decryption works on. */
  function Load(stored: string): string {
    var text := Unmark(MARKER, stored);
    if START_TAG <= text then text else Wrap(text)
  }

  // Marking and unmarking

  /** A '<' in front and nowhere else, no newline. */
  predicate IsMarker(k: string) {
    k != [] && k[0] == '<' && forall i :: 1 <= i < |k| ==> k[i] != '<' && k[i] != '\n'
  }

  lemma {:induction false} MarkedPrefix(k: string, w: string, s: string)
    requires IsMarker(k) && w <= Mark(k, s) && forall i :: 0 <= i < |w| ==> w[i] != '<'
    ensures w <= s
    decreases |w|
  {
    if w != [] {
      var m := Mark(k, s);
      assert s != [] && m[0] == w[0];
      assert s[0] != '\n' && m == [s[0]] + Mark(k, s[1..]);
      assert w[1..] <= Mark(k, s[1..]);
      MarkedPrefix(k, w[1..], s[1..]);
      assert w == [w[0]] + w[1..] && s == [s[0]] + s[1..];
    }
  }

  /** Marking newlines creates no marker out of other text. */
  lemma NoNewMarker(k: string, s: string)
    requires IsMarker(k) && s != [] && s[0] != '\n' && k <= Mark(k, s)
    ensures k <= s
  {
    var w := k[1..];
    assert Mark(k, s) == [s[0]] + Mark(k, s[1..]);
    assert w <= Mark(k, s[1..]);
    MarkedPrefix(k, w, s[1..]);
    assert k == [k[0]] + w && s == [s[0]] + s[1..];
  }

  lemma UnmarkMarker(k: string, r: string)
    requires k != []
    ensures Unmark(k, k + r) == "\n" + Unmark(k, r)
  {
    assert (k + r)[|k|..] == r;
  }

  lemma UnmarkOther(k: string, c: char, r: string)
    requires k != [] && !(k <= [c] + r)
    ensures Unmark(k, [c] + r) == [c] + Unmark(k, r)
  {
    assert ([c] + r)[1..] == r;
  }

  lemma UnmarkStep(k: string, s: string)
    requires IsMarker(k) && s != [] && !(k <= s)
    ensures Unmark(k, Mark(k, s)) == [s[0]] + Unmark(k, Mark(k, s[1..]))
  {
    hide Unmark;
    if s[0] == '\n' {
      UnmarkMarker(k, Mark(k, s[1..]));
    } else {
      if k <= Mark(k, s) {
        NoNewMarker(k, s);
      }
      UnmarkOther(k, s[0], Mark(k, s[1..]));
    }
  }

  lemma {:induction false} MarkPlain(k: string, w: string, r: string)
    requires forall i :: 0 <= i < |w| ==> w[i] != '\n'
    ensures Mark(k, w + r) == w + Mark(k, r)
    decreases |w|
  {
    if w == [] {
      assert w + r == r;
    } else {
      MarkPlain(k, w[1..], r);
      assert (w + r)[1..] == w[1..] + r;
      assert w == [w[0]] + w[1..];
    }
  }

  /** Unmarking undoes marking exactly for text without a marker; other text comes back shorter. */
  lemma {:induction false} UnmarkMark(k: string, s: string)
    requires IsMarker(k) && |k| > 1
    ensures !Contains(s, k) ==> Unmark(k, Mark(k, s)) == s
    ensures Contains(s, k) ==> |Unmark(k, Mark(k, s))| < |s|
    decreases |s|
  {
    hide Mark, Unmark;
    if s == [] {
      MarkNothing(k);
    } else if k <= s {
      var r := s[|k|..];
      assert s == k + r;
      MarkPlain(k, k, r);
      UnmarkMarker(k, Mark(k, r));
      UnmarkMark(k, r);
    } else {
      UnmarkStep(k, s);
      UnmarkMark(k, s[1..]);
      assert s == [s[0]] + s[1..];
    }
  }

  lemma MarkNothing(k: string)
    requires k != []
    ensures Mark(k, []) == [] && Unmark(k, []) == []
  {
  }

  // Trimming

  predicate NoOuterNewline(s: string) {
    s != [] ==> s[0] != '\n' && s[|s| - 1] != '\n'
  }

  lemma {:induction false} TrimLeftShorter(s: string)
    ensures |TrimLeft(s)| <= |s| && (TrimLeft(s) == s <==> s == [] || s[0] != '\n')
    ensures |TrimLeft(s)| == |s| ==> TrimLeft(s) == s
    decreases |s|
  {
    if s != [] && s[0] == '\n' {
      TrimLeftShorter(s[1..]);
    }
  }

  lemma {:induction false} TrimRightShorter(s: string)
    ensures |TrimRight(s)| <= |s| && (TrimRight(s) == s <==> s == [] || s[|s| - 1] != '\n')
    ensures |TrimRight(s)| == |s| ==> TrimRight(s) == s
    decreases |s|
  {
    if s != [] && s[|s| - 1] == '\n' {
      TrimRightShorter(s[..|s| - 1]);
    }
  }

  lemma TrimShorter(s: string)
    ensures |Trim(s)| <= |s|
    ensures Trim(s) == s <==> NoOuterNewline(s)
    ensures |Trim(s)| == |s| ==> Trim(s) == s
  {
    TrimLeftShorter(s);
    TrimRightShorter(TrimLeft(s));
  }

  lemma {:induction false} TrimLeftAppend(s: string)
    ensures TrimLeft(s + "\n") == if TrimLeft(s) == [] then [] else TrimLeft(s) + "\n"
    decreases |s|
  {
    if s == [] {
      assert s + "\n" == "\n" && "\n"[1..] == [];
    } else {
      assert (s + "\n")[1..] == s[1..] + "\n" && (s + "\n")[0] == s[0];
      if s[0] == '\n' {
        TrimLeftAppend(s[1..]);
      }
    }
  }

  /** The newlines around the body of a block are trimmed with those of the body itself. */
  lemma TrimAround(body: string)
    ensures Trim("\n\n" + body + "\n") == Trim(body)
  {
    var s := body + "\n";
    var one, two := "\n" + s, "\n\n" + body + "\n";
    assert two[1..] == one && one[1..] == s;
    assert TrimLeft(two) == TrimLeft(one) == TrimLeft(s);
    TrimLeftAppend(body);
    var t := TrimLeft(body);
    if t != [] {
      var u := t + "\n";
      assert u[..|u| - 1] == t && TrimRight(u) == TrimRight(t);
    }
  }

  // The round trip

  lemma Stripped(body: string)
    ensures TrimSuffix(TrimPrefix(Wrap(body), START_TAG), END_TAG) == "\n\n" + body + "\n"
  {
    var inner := "\n\n" + body + "\n";
    assert Wrap(body) == START_TAG + (inner + END_TAG);
    assert Wrap(body)[|START_TAG|..] == inner + END_TAG;
    assert (inner + END_TAG)[|inner|..] == END_TAG;
    assert (inner + END_TAG)[..|inner|] == inner;
  }

  lemma WrapInjective(a: string, b: string)
    requires Wrap(a) == Wrap(b)
    ensures a == b
  {
    var k := |START_TAG| + 2;
    assert Wrap(a)[k..k + |a|] == a && Wrap(b)[k..k + |b|] == b;
  }

  /** A block is restored character for character exactly when its body contains no marker, does not begin
      with the start tag, and has no newline at either end. */
  lemma RoundTrip(body: string)
    ensures Load(Store(Wrap(body))) == Wrap(body) <==>
            !Contains(body, MARKER) && !(START_TAG <= body) && NoOuterNewline(body)
  {
    hide Wrap, Contains, Mark, Unmark, Trim;
    Stripped(body);
    TrimAround(body);
    var t := Trim(body);
    var text := Unmark(MARKER, Mark(MARKER, t));
    assert Store(Wrap(body)) == Mark(MARKER, t);
    TrimShorter(body);
    UnmarkMark(MARKER, t);
    WrapLonger(body);
    if Load(Mark(MARKER, t)) == Wrap(body) {
      assert |text| <= |t| <= |body|;
      assert !(START_TAG <= text);
      WrapInjective(text, body);
      assert |t| == |body|;
    }
  }

  lemma WrapLonger(body: string)
    ensures |Wrap(body)| > |body|
  {
  }

  /** What is stored fits on one line, whatever the block. */
  lemma StoredOnOneLine(block: string)
    ensures '\n' !in Store(block)
  {
    MarkedOnOneLine(MARKER, Trim(TrimSuffix(TrimPrefix(block, START_TAG), END_TAG)));
  }

  lemma {:induction false} MarkedOnOneLine(k: string, s: string)
    requires '\n' !in k
    ensures '\n' !in Mark(k, s)
    decreases |s|
  {
    if s != [] {
      MarkedOnOneLine(k, s[1..]);
    }
  }

  /** A stored block of the old format, which still carries its tags, is passed on as it is. */
  lemma OldFormat(block: string)
    requires START_TAG <= block && !Contains(block, MARKER)
    ensures Load(Mark(MARKER, block)) == block
  {
    UnmarkMark(MARKER, block);
  }
}
