/**
 The note column of the sales table and the rule by which an update merges a
 new note into it: the old note, the literal separator " | " and the new note
 are concatenated and then Python's `str.strip(" | ")` is applied, which
 removes every leading and trailing character that is a space or a vertical
 bar (a character set, not the separator string).
 */
module Notes {

  /** A note cell: `Missing` is pandas' NaN (an empty cell read back from CSV). */
  datatype Note = Missing | Text(text: string)

  const Separator: string := " | "

  /** The characters named by the argument of `strip(" | ")`. */
  predicate IsStripChar(c: char) {
    c == ' ' || c == '|'
  }

  predicate AllStripChars(s: string) {
    forall k :: 0 <= k < |s| ==> IsStripChar(s[k])
  }

  /** Neither end of `s` is a space or a vertical bar. */
  predicate Clean(s: string) {
    s == [] || (!IsStripChar(s[0]) && !IsStripChar(s[|s| - 1]))
  }

  /** `s.lstrip(" | ")`: what is left is a suffix of `s`, everything cut off is
      a strip character, and the suffix does not start with one. */
  function TrimLeft(s: string): (r: string)
    ensures |r| <= |s| && r == s[|s| - |r|..]
    ensures AllStripChars(s[..|s| - |r|])
    ensures r == [] || !IsStripChar(r[0])
  {
    if |s| > 0 && IsStripChar(s[0]) then TrimLeft(s[1..]) else s
  }

  /** `s.rstrip(" | ")`: the mirror image of TrimLeft. */
  function TrimRight(s: string): (r: string)
    ensures |r| <= |s| && r == s[..|r|]
    ensures AllStripChars(s[|r|..])
    ensures r == [] || !IsStripChar(r[|r| - 1])
  {
    if |s| > 0 && IsStripChar(s[|s| - 1]) then
      var r := TrimRight(s[..|s| - 1]);
      assert s[|r|..] == s[..|s| - 1][|r|..] + [s[|s| - 1]];
      r
    else
      s
  }

  /** `r` is what stripping leaves of `s`: a contiguous piece `s[i..i+|r|]`
      of `s` such that everything before and after it is a strip character
      and neither of its ends is one. */
  predicate StrippedFrom(s: string, r: string) {
    && Clean(r)
    && exists i :: 0 <= i <= |s| - |r| && r == s[i..i + |r|]
                   && AllStripChars(s[..i]) && AllStripChars(s[i + |r|..])
  }

  /** `s.strip(" | ")`. */
  function Strip(s: string): (r: string)
    ensures StrippedFrom(s, r)
  {
    var t := TrimLeft(s);
    var r := TrimRight(t);
    PieceOfSuffix(s, t, r);
    r
  }

  /** A prefix `r` of a suffix `t` of `s`, each cut off by strip characters
      only and each ending in a character that is not one, is what stripping
      leaves of `s`. */
  lemma PieceOfSuffix(s: string, t: string, r: string)
    requires |t| <= |s| && t == s[|s| - |t|..] && AllStripChars(s[..|s| - |t|])
    requires t == [] || !IsStripChar(t[0])
    requires |r| <= |t| && r == t[..|r|] && AllStripChars(t[|r|..])
    requires r == [] || !IsStripChar(r[|r| - 1])
    ensures StrippedFrom(s, r)
  {
    var i := |s| - |t|;
    if r != [] {
      assert r[0] == t[0];
    }
    assert s[i + |r|..] == t[|r|..];
    assert r == s[i..i + |r|];
  }

  /** The text Python sees for the old note: `str(note)` if present, else "". */
  function OldText(n: Note): string {
    match n
    case Missing => ""
    case Text(s) => s
  }

  /** The note after an update with `newNote`: unchanged when the new note is
      empty, otherwise `(old + " | " + new).strip(" | ")`. */
  function MergeNote(prev: Note, newNote: string): (r: Note)
    ensures newNote == "" ==> r == prev
    ensures newNote != "" ==> r.Text? && Clean(r.text)
  {
    if newNote == "" then prev else Text(Strip(OldText(prev) + Separator + newNote))
  }

  /** Where the strip characters in front of `s` end, TrimLeft stops. */
  lemma {:induction false} TrimLeftAt(s: string, i: nat)
    requires i <= |s| && AllStripChars(s[..i])
    requires i < |s| ==> !IsStripChar(s[i])
    ensures TrimLeft(s) == s[i..]
  {
    if i > 0 {
      assert s[..i][0] == s[0];
      var t := s[1..];
      assert t[..i - 1] == s[1..i];
      assert AllStripChars(t[..i - 1]) by {
        forall k | 0 <= k < i - 1 ensures IsStripChar(s[1..i][k]) {
          assert s[1..i][k] == s[..i][k + 1];
        }
      }
      TrimLeftAt(t, i - 1);
    }
  }

  /** Where the strip characters at the end of `s` begin, TrimRight stops. */
  lemma {:induction false} TrimRightAt(s: string, e: nat)
    requires e <= |s| && AllStripChars(s[e..])
    requires 0 < e ==> !IsStripChar(s[e - 1])
    ensures TrimRight(s) == s[..e]
  {
    if e < |s| {
      var s' := s[..|s| - 1];
      assert s[e..][|s| - 1 - e] == s[|s| - 1];
      assert s'[e..] == s[e..|s| - 1];
      assert AllStripChars(s'[e..]) by {
        forall k | 0 <= k < |s'| - e ensures IsStripChar(s'[e..][k]) {
          assert s'[e..][k] == s[e..][k];
        }
      }
      TrimRightAt(s', e);
      assert s'[..e] == s[..e];
    }
  }

  /** A string of strip characters only strips to "". */
  lemma StripAllStripChars(s: string)
    requires AllStripChars(s)
    ensures Strip(s) == ""
  {
    assert s[..|s|] == s;
    TrimLeftAt(s, |s|);
  }

  /** Characters before `i` and from `i` on are strip characters: all are. */
  lemma AllStripCharsJoin(s: string, i: nat)
    requires i <= |s| && AllStripChars(s[..i]) && AllStripChars(s[i..])
    ensures AllStripChars(s)
  {
    forall k | 0 <= k < |s| ensures IsStripChar(s[k]) {
      if k < i { assert s[..i][k] == s[k]; } else { assert s[i..][k - i] == s[k]; }
    }
  }

  /** Right stripping a suffix `s[i..]` stops at `j`. */
  lemma TrimRightOfSuffix(s: string, i: nat, j: nat)
    requires i < j <= |s| && AllStripChars(s[j..]) && !IsStripChar(s[j - 1])
    ensures TrimRight(s[i..]) == s[i..j]
  {
    var t := s[i..];
    assert t[j - i - 1] == s[j - 1];
    assert t[j - i..] == s[j..];
    TrimRightAt(t, j - i);
  }

  /** The non-empty case of StripUnique: both trims stop at the piece. */
  lemma StripAtPiece(s: string, i: nat, j: nat)
    requires i < j <= |s|
    requires AllStripChars(s[..i]) && AllStripChars(s[j..])
    requires !IsStripChar(s[i]) && !IsStripChar(s[j - 1])
    ensures TrimRight(TrimLeft(s)) == s[i..j]
  {
    TrimLeftAt(s, i);
    TrimRightOfSuffix(s, i, j);
  }

  /** Any piece of `s` with the properties Strip promises is Strip(s): the
      specification of Strip determines its result. */
  lemma StripUnique(s: string, i: nat, j: nat)
    requires i <= j <= |s|
    requires AllStripChars(s[..i]) && AllStripChars(s[j..]) && Clean(s[i..j])
    ensures Strip(s) == s[i..j]
  {
    if i < j {
      assert s[i..j][0] == s[i] && s[i..j][j - i - 1] == s[j - 1];
      StripAtPiece(s, i, j);
    } else {
      AllStripCharsJoin(s, i);
      StripAllStripChars(s);
    }
  }

  /** A clean string is left as it is. */
  lemma StripClean(s: string)
    requires Clean(s)
    ensures Strip(s) == s
  {
    assert s[..0] == [] && s[|s|..] == [] && s[0..|s|] == s;
    StripUnique(s, 0, |s|);
  }

  /** Strip characters in front of `s` make no difference to TrimLeft. */
  lemma {:induction false} TrimLeftAfterPrefix(p: string, s: string)
    requires AllStripChars(p)
    ensures TrimLeft(p + s) == TrimLeft(s)
  {
    if p != [] {
      assert (p + s)[0] == p[0];
      assert (p + s)[1..] == p[1..] + s;
      assert AllStripChars(p[1..]) by {
        forall k | 0 <= k < |p| - 1 ensures IsStripChar(p[1..][k]) {
          assert p[1..][k] == p[k + 1];
        }
      }
      TrimLeftAfterPrefix(p[1..], s);
    } else {
      assert p + s == s;
    }
  }

  /** Strip characters in front of `s` make no difference. */
  lemma StripAfterPrefix(p: string, s: string)
    requires AllStripChars(p)
    ensures Strip(p + s) == Strip(s)
  {
    TrimLeftAfterPrefix(p, s);
  }

  /** Merging into an empty or missing note yields the stripped new note: no
      separator is left in front. */
  lemma MergeOntoEmpty(prev: Note, newNote: string)
    requires OldText(prev) == "" && newNote != ""
    ensures MergeNote(prev, newNote) == Text(Strip(newNote))
  {
    assert OldText(prev) + Separator + newNote == Separator + newNote;
    StripAfterPrefix(Separator, newNote);
  }

  /** A missing (NaN) note merges exactly like the empty string. */
  lemma MergeMissingAsEmpty(newNote: string)
    ensures MergeNote(Missing, newNote) == if newNote == "" then Missing else MergeNote(Text(""), newNote)
  {
  }

  /** The note-append law: a clean old note "A" and a clean new note "B" merge
      to "A | B". */
  lemma MergeAppends(a: string, b: string)
    requires a != "" && b != "" && Clean(a) && Clean(b)
    ensures MergeNote(Text(a), b) == Text(a + Separator + b)
  {
    var s := a + Separator + b;
    assert s[0] == a[0] && s[|s| - 1] == b[|b| - 1];
    StripClean(s);
  }

  /** Stripping `a + m + b`, where `ta` is what left stripping leaves of `a`
      and `tb` what right stripping leaves of `b`, both non-empty, keeps
      `ta + m + tb`: everything inside the two outer runs of strip characters
      survives. */
  lemma JoinPiece(a: string, m: string, b: string, ta: string, tb: string)
    requires |ta| <= |a| && ta == a[|a| - |ta|..] && AllStripChars(a[..|a| - |ta|])
    requires ta != [] && !IsStripChar(ta[0])
    requires |tb| <= |b| && tb == b[..|tb|] && AllStripChars(b[|tb|..])
    requires tb != [] && !IsStripChar(tb[|tb| - 1])
    ensures Strip(a + m + b) == ta + m + tb
  {
    var s := a + m + b;
    var i, j := |a| - |ta|, |a| + |m| + |tb|;
    assert s[..i] == a[..i];
    assert s[j..] == b[|tb|..];
    assert s[i..j] == ta + m + tb;
    assert s[i..j][0] == ta[0] && s[i..j][j - i - 1] == tb[|tb| - 1];
    StripUnique(s, i, j);
  }

  /** The note-append law for any old note: the old note without its leading
      spaces and bars, the separator, and the new note without its trailing
      ones. The old text survives and the new note comes last. */
  lemma MergeAppendsGeneral(a: string, b: string)
    requires TrimLeft(a) != "" && TrimRight(b) != ""
    ensures MergeNote(Text(a), b) == Text(TrimLeft(a) + Separator + TrimRight(b))
  {
    JoinPiece(a, Separator, b, TrimLeft(a), TrimRight(b));
  }

  /** An old note made only of spaces and bars is dropped entirely: the
      merged note is the stripped new note. */
  lemma MergeOntoStripOnly(a: string, b: string)
    requires AllStripChars(a) && b != ""
    ensures MergeNote(Text(a), b) == Text(Strip(b))
  {
    assert AllStripChars(a + Separator) by {
      forall k | 0 <= k < |a| + |Separator| ensures IsStripChar((a + Separator)[k]) {
        if k < |a| { assert (a + Separator)[k] == a[k]; }
      }
    }
    assert a + Separator + b == (a + Separator) + b;
    StripAfterPrefix(a + Separator, b);
  }

  /** The strip removes characters, not the separator: a new note made only
      of spaces and bars leaves a clean old note as it was (but present). */
  lemma MergeDropsStripOnlyNote(a: string, b: string)
    requires Clean(a) && b != "" && AllStripChars(b)
    ensures MergeNote(Text(a), b) == Text(a)
  {
    var s := a + Separator + b;
    assert s[..0] == [] && s[0..|a|] == a;
    assert AllStripChars(s[|a|..]) by {
      assert s[|a|..] == Separator + b;
    }
    StripUnique(s, 0, |a|);
  }

  /** The law for an empty prior note: a clean new note "B" merged
      into an empty or missing note is just "B". */
  lemma MergeOntoEmptyClean(prev: Note, b: string)
    requires OldText(prev) == "" && b != "" && Clean(b)
    ensures MergeNote(prev, b) == Text(b)
  {
    MergeOntoEmpty(prev, b);
    StripClean(b);
  }
}
