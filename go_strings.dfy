/**
 * The pieces of Go's standard library that the price service relies on:
 * `strings.Split` and `strings.Join` with a one-character separator,
 * `fmt.Sprintf` applied to a template and a single string argument, and
 * `len` of a string, which counts UTF-8 bytes rather than characters.
 */
module GoStrings {

  /** `strings.Split(s, string(sep))`: the pieces between separators, always at least one. */
  function Split(s: string, sep: char): (parts: seq<string>)
    ensures |parts| >= 1
    decreases |s|
  {
    if |s| == 0 then [""]
    else
      var rest := Split(s[1..], sep);
      if s[0] == sep then [""] + rest
      else [[s[0]] + rest[0]] + rest[1..]
  }

  /** Total number of characters of the parts. */
  function Lengths(parts: seq<string>): nat
    decreases |parts|
  {
    if |parts| == 0 then 0 else |parts[0]| + Lengths(parts[1..])
  }

  /**
   * `strings.Join(parts, sep)`: the parts with one separator between each two
   * consecutive ones and nothing else.
   */
  function Join(parts: seq<string>, sep: string): (s: string)
    ensures |s| == Lengths(parts) + (if |parts| == 0 then 0 else (|parts| - 1) * |sep|)
    ensures |parts| >= 1 ==> s[..|parts[0]|] == parts[0]
    decreases |parts|
  {
    if |parts| == 0 then ""
    else if |parts| == 1 then parts[0]
    else
      assert (|parts| - 1) * |sep| == |sep| + (|parts| - 2) * |sep|;
      parts[0] + sep + Join(parts[1..], sep)
  }

  /** Number of occurrences of `c` in `s`. */
  function Occurrences(s: string, c: char): nat
    decreases |s|
  {
    if |s| == 0 then 0
    else (if s[0] == c then 1 else 0) + Occurrences(s[1..], c)
  }

  /** Splitting yields one piece more than there are separators. */
  lemma {:induction false} SplitCount(s: string, sep: char)
    ensures |Split(s, sep)| == Occurrences(s, sep) + 1
    decreases |s|
  {
    if |s| > 0 {
      SplitCount(s[1..], sep);
    }
  }

  /** Every piece of a split is free of the separator. */
  lemma {:induction false} SplitPiecesFree(s: string, sep: char)
    ensures forall i :: 0 <= i < |Split(s, sep)| ==> sep !in Split(s, sep)[i]
    decreases |s|
  {
    if |s| > 0 {
      SplitPiecesFree(s[1..], sep);
    }
  }

  /** Joining the pieces of a split with the same separator gives back the string. */
  lemma {:induction false} JoinSplit(s: string, sep: char)
    ensures Join(Split(s, sep), [sep]) == s
    decreases |s|
  {
    if |s| > 0 {
      var rest := Split(s[1..], sep);
      JoinSplit(s[1..], sep);
      assert Join(rest, [sep]) == s[1..];
      if s[0] == sep {
        JoinCons("", rest, [sep]);
      } else if |rest| == 1 {
        assert Split(s, sep) == [[s[0]] + rest[0]];
      } else {
        assert Split(s, sep) == [[s[0]] + rest[0]] + rest[1..];
        JoinCons([s[0]] + rest[0], rest[1..], [sep]);
        JoinCons(rest[0], rest[1..], [sep]);
        assert [rest[0]] + rest[1..] == rest;
      }
    }
  }

  /** Joining a non-empty tail puts the separator after the head. */
  lemma JoinCons(head: string, tail: seq<string>, sep: string)
    requires |tail| >= 1
    ensures Join([head] + tail, sep) == head + sep + Join(tail, sep)
  {
    assert ([head] + tail)[1..] == tail;
  }

  /** A string without the separator splits into itself alone. */
  lemma {:induction false} SplitFree(a: string, sep: char)
    requires sep !in a
    ensures Split(a, sep) == [a]
    decreases |a|
  {
    if |a| > 0 {
      assert sep !in a[1..] by {
        forall i | 0 <= i < |a[1..]| ensures a[1..][i] != sep { assert a[1..][i] == a[i + 1]; }
      }
      SplitFree(a[1..], sep);
      assert [a[0]] + a[1..] == a;
    }
  }

  /** A separator-free prefix followed by a separator becomes the first piece. */
  lemma {:induction false} SplitAfterPiece(a: string, sep: char, b: string)
    requires sep !in a
    ensures Split(a + [sep] + b, sep) == [a] + Split(b, sep)
    decreases |a|
  {
    var s := a + [sep] + b;
    if |a| == 0 {
      assert s[1..] == b;
    } else {
      assert s[1..] == a[1..] + [sep] + b;
      assert sep !in a[1..] by {
        forall i | 0 <= i < |a[1..]| ensures a[1..][i] != sep { assert a[1..][i] == a[i + 1]; }
      }
      SplitAfterPiece(a[1..], sep, b);
      assert [a[0]] + a[1..] == a;
    }
  }

  /** Splitting a join of separator-free pieces gives back the pieces. */
  lemma {:induction false} SplitJoin(parts: seq<string>, sep: char)
    requires |parts| >= 1
    requires forall i :: 0 <= i < |parts| ==> sep !in parts[i]
    ensures Split(Join(parts, [sep]), sep) == parts
    decreases |parts|
  {
    if |parts| == 1 {
      SplitFree(parts[0], sep);
    } else {
      SplitJoin(parts[1..], sep);
      SplitAfterPiece(parts[0], sep, Join(parts[1..], [sep]));
      assert [parts[0]] + parts[1..] == parts;
    }
  }

  /** Joining with a separator places it between consecutive pieces. */
  lemma {:induction false} JoinAppend(parts: seq<string>, last: string, sep: string)
    requires |parts| >= 1
    ensures Join(parts + [last], sep) == Join(parts, sep) + sep + last
    decreases |parts|
  {
    if |parts| == 1 {
      assert (parts + [last])[1..] == [last];
    } else {
      assert (parts + [last])[1..] == parts[1..] + [last];
      JoinAppend(parts[1..], last, sep);
    }
  }

  /** Number of bytes of the UTF-8 encoding of a character. */
  function Utf8Length(c: char): (n: nat)
    ensures 1 <= n <= 4
  {
    if c as int < 0x80 then 1
    else if c as int < 0x800 then 2
    else if c as int < 0x10000 then 3
    else 4
  }

  /** Go's `len(s)`: the length of the UTF-8 encoding of `s`, one to four bytes per character. */
  function ByteLength(s: string): (n: nat)
    ensures |s| <= n <= 4 * |s|
    decreases |s|
  {
    if |s| == 0 then 0 else Utf8Length(s[0]) + ByteLength(s[1..])
  }

  /** An ASCII string takes one byte per character. */
  lemma {:induction false} AsciiByteLength(s: string)
    requires forall i :: 0 <= i < |s| ==> s[i] as int < 0x80
    ensures ByteLength(s) == |s|
    decreases |s|
  {
    if |s| > 0 {
      assert forall i :: 0 <= i < |s[1..]| ==> s[1..][i] == s[i + 1];
      AsciiByteLength(s[1..]);
    }
  }

  /**
   * The templates this model can format: every `%` starts a `%s` verb.
   * (Go's other verbs, flags and `%%` are outside the model.)
   */
  ghost predicate StringVerbsOnly(t: string)
  {
    forall i :: 0 <= i < |t| && t[i] == '%' ==> i + 1 < |t| && t[i + 1] == 's'
  }

  /**
   * `fmt.Sprintf(t, arg)` for one string argument: the first `%s` is replaced
   * by `arg`, any later `%s` by `%!s(MISSING)`, and an argument that no verb
   * consumed is appended as `%!(EXTRA string=arg)`.
   */
  function Sprintf(t: string, arg: string): string
    requires StringVerbsOnly(t)
  {
    Format(t, arg, false)
  }

  /** What Go appends for an argument that no verb consumed. */
  function Extra(arg: string): string
  {
    "%!(EXTRA string=" + arg + ")"
  }

  /** The formatter after the argument has (`used`) or has not been consumed. */
  function Format(t: string, arg: string, used: bool): string
    requires StringVerbsOnly(t)
    decreases |t|
  {
    if |t| == 0 then
      (if used then "" else Extra(arg))
    else if t[0] == '%' then
      assert StringVerbsOnly(t[2..]) by { VerbsOnlyDrop(t, 2); }
      (if used then "%!s(MISSING)" else arg) + Format(t[2..], arg, true)
    else
      assert StringVerbsOnly(t[1..]) by { VerbsOnlyDrop(t, 1); }
      [t[0]] + Format(t[1..], arg, used)
  }

  lemma VerbsOnlyDrop(t: string, k: nat)
    requires StringVerbsOnly(t)
    requires k <= |t|
    requires k > 0 ==> t[k - 1] != '%'
    ensures StringVerbsOnly(t[k..])
  {
    forall i | 0 <= i < |t[k..]| && t[k..][i] == '%'
      ensures i + 1 < |t[k..]| && t[k..][i + 1] == 's'
    {
      assert t[k + i] == '%';
    }
  }

  /** A template `pre + "%s" + post` with no other `%` is formattable. */
  lemma OneVerbTemplate(pre: string, post: string)
    requires '%' !in pre && '%' !in post
    ensures StringVerbsOnly(pre + "%s" + post)
  {
    var t := pre + "%s" + post;
    assert forall i :: 0 <= i < |pre| ==> t[i] == pre[i];
    assert forall i :: |pre| + 2 <= i < |t| ==> t[i] == post[i - |pre| - 2];
  }

  /** With a single `%s` the argument lands exactly where the verb was. */
  lemma {:induction false} SprintfOneVerb(pre: string, post: string, arg: string)
    requires '%' !in pre && '%' !in post
    ensures StringVerbsOnly(pre + "%s" + post)
    ensures Sprintf(pre + "%s" + post, arg) == pre + arg + post
  {
    OneVerbTemplate(pre, post);
    FormatPrefix(pre, post, arg);
  }

  lemma {:induction false} FormatPrefix(pre: string, post: string, arg: string)
    requires '%' !in pre && '%' !in post
    ensures StringVerbsOnly(pre + "%s" + post)
    ensures Format(pre + "%s" + post, arg, false) == pre + arg + post
    decreases |pre|
  {
    OneVerbTemplate(pre, post);
    var t := pre + "%s" + post;
    if |pre| == 0 {
      assert t[2..] == post;
      FormatPlain(post, arg, true);
    } else {
      assert '%' !in pre[1..] by {
        forall i | 0 <= i < |pre[1..]| ensures pre[1..][i] != '%' { assert pre[1..][i] == pre[i + 1]; }
      }
      assert t[1..] == pre[1..] + "%s" + post;
      FormatPrefix(pre[1..], post, arg);
      assert [pre[0]] + pre[1..] == pre;
    }
  }

  /**
   * Text without verbs is copied unchanged, followed by the EXTRA tag when the
   * argument was never consumed; so `Sprintf` of a verb-free template appends it.
   */
  lemma {:induction false} FormatPlain(s: string, arg: string, used: bool)
    requires '%' !in s
    ensures StringVerbsOnly(s)
    ensures Format(s, arg, used) == s + (if used then "" else Extra(arg))
    ensures !used ==> Sprintf(s, arg) == s + Extra(arg)
    decreases |s|
  {
    if |s| > 0 {
      assert '%' !in s[1..] by {
        forall i | 0 <= i < |s[1..]| ensures s[1..][i] != '%' { assert s[1..][i] == s[i + 1]; }
      }
      FormatPlain(s[1..], arg, used);
      assert [s[0]] + s[1..] == s;
    }
  }
}
