/**
 * The two string operations the order-book parsers use, specialised to the
 * newline separator: `strings.Trim(s, "\n")` and `strings.Split(s, "\n")`
 * of Go's standard library, with `strings.Join` as the inverse of the latter.
 */
module Text {

  const NL: char := '\n'

  /** `strings.TrimLeft(s, "\n")`: drops every leading newline. */
  function TrimLeft(s: string): (r: string)
    ensures |r| <= |s| && r == s[|s| - |r|..]
    ensures forall k :: 0 <= k < |s| - |r| ==> s[k] == NL
    ensures r == [] || r[0] != NL
    decreases |s|
  {
    if s != [] && s[0] == NL then TrimLeft(s[1..]) else s
  }

  /** `strings.TrimRight(s, "\n")`: drops every trailing newline. */
  function TrimRight(s: string): (r: string)
    ensures |r| <= |s| && r == s[..|r|]
    ensures forall k :: |r| <= k < |s| ==> s[k] == NL
    ensures r == [] || r[|r| - 1] != NL
    decreases |s|
  {
    if s != [] && s[|s| - 1] == NL then TrimRight(s[..|s| - 1]) else s
  }

  /** `strings.Trim(s, "\n")`: Go trims the left end first, then the right end. */
  function Trim(s: string): (r: string)
    ensures r == [] || (r[0] != NL && r[|r| - 1] != NL)
  {
    TrimRight(TrimLeft(s))
  }

  /** Adds to `Trim`'s contract: the trimmed string is a slice of `s` cut only at newlines. */
  lemma TrimShape(s: string)
    ensures exists i, j ::
      && 0 <= i <= j <= |s| && Trim(s) == s[i..j]
      && (forall k :: 0 <= k < i ==> s[k] == NL)
      && (forall k :: j <= k < |s| ==> s[k] == NL)
  {
    var l := TrimLeft(s);
    var i := |s| - |l|;
    var r := TrimRight(l);
    assert r == s[i..i + |r|];
  }

  /** Trailing newlines appended to an already trimmed string are removed again. */
  lemma {:induction false} TrimAppendedNewlines(s: string, n: nat)
    requires s == [] || (s[0] != NL && s[|s| - 1] != NL)
    ensures Trim(s + seq(n, _ => NL)) == s
    decreases n
  {
    var pad := seq(n, _ => NL);
    if n == 0 {
      assert s + pad == s;
    } else {
      var shorter := seq(n - 1, _ => NL);
      assert pad == shorter + [NL];
      TrimAppendedNewlines(s, n - 1);
      if s == [] {
        assert TrimLeft(s + pad) == [];
      } else {
        assert TrimLeft(s + pad) == s + pad;
        assert TrimLeft(s + shorter) == s + shorter;
        assert (s + pad)[..|s + pad| - 1] == s + shorter;
      }
    }
  }

  /**
   * `strings.Split(s, "\n")`: the pieces between separators. There is always
   * at least one piece; the empty string splits into `[""]`.
   */
  function Split(s: string): (parts: seq<string>)
    ensures |parts| >= 1
    decreases |s|
  {
    if s == [] then [""]
    else
      var rest := Split(s[1..]);
      if s[0] == NL then [""] + rest
      else [[s[0]] + rest[0]] + rest[1..]
  }

  /** No piece of a split contains the separator. */
  lemma {:induction false} SplitPieces(s: string)
    ensures forall p :: p in Split(s) ==> NL !in p
    decreases |s|
  {
    if s != [] {
      SplitPieces(s[1..]);
      var rest := Split(s[1..]);
      if s[0] != NL {
        assert rest[0] in rest;
        forall p | p in Split(s)
          ensures NL !in p
        {
          if p != [s[0]] + rest[0] {
            assert p in rest[1..];
          }
        }
      }
    }
  }

  /** `strings.Join(parts, "\n")`. */
  function Join(parts: seq<string>): string
    decreases |parts|
  {
    if parts == [] then ""
    else if |parts| == 1 then parts[0]
    else parts[0] + [NL] + Join(parts[1..])
  }

  /** Splitting loses nothing: joining the pieces gives the string back. */
  lemma {:induction false} JoinSplit(s: string)
    ensures Join(Split(s)) == s
    decreases |s|
  {
    if s != [] {
      var rest := Split(s[1..]);
      JoinSplit(s[1..]);
      if s[0] == NL {
        assert Split(s) == [""] + rest;
        JoinPrepend([""], rest);
      } else {
        assert [s[0]] + s[1..] == s;
        if |rest| > 1 {
          JoinPrepend([[s[0]] + rest[0]], rest[1..]);
          JoinPrepend([rest[0]], rest[1..]);
          assert [rest[0]] + rest[1..] == rest;
        }
      }
    }
  }

  /** Joining a non-empty list after a first piece puts one separator between them. */
  lemma JoinPrepend(first: seq<string>, rest: seq<string>)
    requires |first| == 1 && |rest| >= 1
    ensures Join(first + rest) == first[0] + [NL] + Join(rest)
  {
    assert (first + rest)[1..] == rest;
  }

  /** A separator-free prefix becomes the first piece. */
  lemma {:induction false} SplitAfterLine(a: string, b: string)
    requires NL !in a
    ensures Split(a + [NL] + b) == [a] + Split(b)
    decreases |a|
  {
    if a == [] {
      assert a + [NL] + b == [NL] + b;
      assert ([NL] + b)[1..] == b;
    } else {
      SplitAfterLine(a[1..], b);
      assert (a + [NL] + b)[1..] == a[1..] + [NL] + b;
      assert [a[0]] + a[1..] == a;
    }
  }

  /** A string without separators is a single piece. */
  lemma {:induction false} SplitLine(a: string)
    requires NL !in a
    ensures Split(a) == [a]
    decreases |a|
  {
    if a != [] {
      SplitLine(a[1..]);
      assert [a[0]] + a[1..] == a;
    }
  }

  /** Joining separator-free pieces and splitting again gives the pieces back. */
  lemma {:induction false} SplitJoin(parts: seq<string>)
    requires |parts| >= 1
    requires forall p :: p in parts ==> NL !in p
    ensures Split(Join(parts)) == parts
    decreases |parts|
  {
    if |parts| == 1 {
      SplitLine(parts[0]);
    } else {
      SplitJoin(parts[1..]);
      SplitAfterLine(parts[0], Join(parts[1..]));
    }
  }

  /** The split yields one piece exactly when the string holds no separator. */
  lemma {:induction false} SplitSingle(s: string)
    ensures |Split(s)| == 1 <==> NL !in s
    decreases |s|
  {
    if s != [] {
      SplitSingle(s[1..]);
      assert s == [s[0]] + s[1..];
    }
  }
}
