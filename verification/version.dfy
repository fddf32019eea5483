/** Normalisation of the remote version marker (`CleanNewVersion`). */
module Version {
  import opened GoText

  /** The marker is a plain text file: drop one trailing newline, if any. */
  function CleanNewVersion(raw: seq<byte>): (v: GoString)
    ensures |raw| > 0 && raw[|raw| - 1] == Newline ==>
              v + "\n" == BytesToString(raw)
    ensures (|raw| == 0 || raw[|raw| - 1] != Newline) ==>
              v == BytesToString(raw)
  {
    TrimSuffix(BytesToString(raw), "\n")
  }

  /** A marker written as `b` followed by one newline normalises to `b`. */
  lemma CleanDropsOneNewline(b: seq<byte>)
    ensures CleanNewVersion(b + [Newline]) == BytesToString(b)
  {
    BytesToStringAppend(b, [Newline]);
    var s := BytesToString(b + [Newline]);
    assert s[|s| - 1..] == "\n";
  }

  /** Exactly one newline is removed: `b + "\n\n"` becomes `b + "\n"`. */
  lemma CleanKeepsSecondNewline(b: seq<byte>)
    ensures CleanNewVersion(b + [Newline, Newline]) == BytesToString(b) + "\n"
  {
    assert b + [Newline, Newline] == (b + [Newline]) + [Newline];
    CleanDropsOneNewline(b + [Newline]);
    BytesToStringAppend(b, [Newline]);
  }

  /** The normalised version is a prefix of the raw marker, at most one
      character shorter, and shorter exactly when the marker ends in a newline. */
  lemma CleanIsPrefix(raw: seq<byte>)
    ensures var v := CleanNewVersion(raw);
            && v <= BytesToString(raw)
            && (|v| == |raw| || |v| == |raw| - 1)
            && (|v| == |raw| - 1 <==> |raw| > 0 && raw[|raw| - 1] == Newline)
  {
    var v, s := CleanNewVersion(raw), BytesToString(raw);
    if |raw| > 0 && raw[|raw| - 1] == Newline {
      assert v + "\n" == s;
      assert s[..|v|] == v;
    }
  }

  /** Normalising the normalised string again changes nothing exactly when
      the string did not end in two newlines; `"a\n\n"` is the smallest
      kind of input on which a second pass removes a second newline. */
  lemma TrimNewlineIdempotentIff(s: GoString)
    ensures TrimSuffix(TrimSuffix(s, "\n"), "\n") == TrimSuffix(s, "\n")
            <==> !HasSuffix(s, "\n\n")
  {
    var t := TrimSuffix(s, "\n");
    if HasSuffix(s, "\n\n") {
      assert s[|s| - 1..] == "\n";
      assert t == s[..|s| - 1];
      assert t[|t| - 1..] == "\n";
      assert |TrimSuffix(t, "\n")| == |t| - 1;
    } else if HasSuffix(s, "\n") {
      assert t == s[..|s| - 1];
      if |t| > 0 {
        assert t[|t| - 1] == s[|s| - 2];
      }
    }
  }

  /** When the marker does not end in a newline, normalisation is the
      identity, so normalising again changes nothing. */
  lemma CleanStableWithoutNewline(raw: seq<byte>)
    requires |raw| == 0 || raw[|raw| - 1] != Newline
    ensures TrimSuffix(CleanNewVersion(raw), "\n") == CleanNewVersion(raw)
  {
    var s := BytesToString(raw);
    if |raw| > 0 {
      assert s[|s| - 1] as int == raw[|raw| - 1] as int;
    }
  }
}
