/**
 * The parts of Go's `strings` package, and the conversions between strings and
 * byte slices, that the Authorization header pipeline relies on.
 *
 * A Go string is a sequence of bytes. Here it is a Dafny `string` in which each
 * character stands for one byte, so every character of a string that came from
 * bytes is below 256 (`IsByteString`).
 */
module GoStrings {

  /** Go's `byte`. */
  type Byte = b: int | 0 <= b < 0x100

  /** The string stands for a Go string: each character is one byte. */
  predicate IsByteString(s: string) {
    forall i :: 0 <= i < |s| ==> s[i] as int < 0x100
  }

  /** The conversion `string(data)` of a byte slice. */
  function FromBytes(data: seq<Byte>): (s: string)
    ensures |s| == |data| && IsByteString(s)
    ensures forall i :: 0 <= i < |data| ==> s[i] as int == data[i]
  {
    seq(|data|, i requires 0 <= i < |data| => data[i] as char)
  }

  /** The conversion `[]byte(s)` of a string; `FromBytes` undoes it. */
  function ToBytes(s: string): (data: seq<Byte>)
    requires IsByteString(s)
    ensures |data| == |s|
    ensures FromBytes(data) == s
  {
    seq(|s|, i requires 0 <= i < |s| => s[i] as int)
  }

  /** `strings.TrimPrefix`: one leading copy of `prefix` removed, or `s` itself. */
  function TrimPrefix(s: string, prefix: string): (r: string)
    ensures prefix <= s ==> prefix + r == s
    ensures !(prefix <= s) ==> r == s
  {
    if prefix <= s then s[|prefix|..] else s
  }

  /** The parts joined back together with `sep` between each two of them. */
  function Join(parts: seq<string>, sep: char): string
    decreases |parts|
  {
    if |parts| == 0 then ""
    else if |parts| == 1 then parts[0]
    else parts[0] + [sep] + Join(parts[1..], sep)
  }

  /**
   * `strings.Split(s, sep)` for a one-byte separator: the text between the
   * occurrences of `sep`. There is always at least one part (the empty string
   * splits into `[""]`), no part contains `sep`, and joining the parts gives `s`
   * back.
   */
  function Split(s: string, sep: char): (parts: seq<string>)
    ensures |parts| >= 1
    ensures forall i :: 0 <= i < |parts| ==> sep !in parts[i]
    ensures Join(parts, sep) == s
    decreases |s|
  {
    if |s| == 0 then [""]
    else
      var rest := Split(s[1..], sep);
      if s[0] == sep then
        assert ([""] + rest)[1..] == rest;
        [""] + rest
      else
        var parts := [[s[0]] + rest[0]] + rest[1..];
        assert parts[1..] == rest[1..];
        assert forall i :: 1 <= i < |parts| ==> parts[i] == rest[i];
        assert s == [s[0]] + s[1..];
        parts
  }

  /** The parts of `s` are two or more exactly when `sep` occurs in `s`. */
  lemma SplitHasSecondPart(s: string, sep: char)
    ensures |Split(s, sep)| >= 2 <==> sep in s
  {
    var parts := Split(s, sep);
    if |parts| >= 2 {
      assert s == parts[0] + [sep] + Join(parts[1..], sep);
      assert s[|parts[0]|] == sep;
    }
  }

  /**
   * The first part is the text before the first `sep` (possibly empty), or all
   * of `s` when `sep` does not occur.
   */
  lemma SplitFirstPart(s: string, sep: char)
    ensures sep !in Split(s, sep)[0]
    ensures sep in s ==> Split(s, sep)[0] + [sep] <= s
    ensures sep !in s ==> Split(s, sep)[0] == s
  {
    var parts := Split(s, sep);
    SplitHasSecondPart(s, sep);
    if |parts| >= 2 {
      assert s == (parts[0] + [sep]) + Join(parts[1..], sep);
    }
  }

  /** Splitting text that starts with a separator-free part continues that part. */
  lemma {:induction false} SplitAfterPart(a: string, t: string, sep: char)
    requires sep !in a
    ensures Split(a + t, sep) == [a + Split(t, sep)[0]] + Split(t, sep)[1..]
    decreases |a|
  {
    var tail := Split(t, sep);
    if |a| == 0 {
      assert a + t == t && a + tail[0] == tail[0];
      assert tail == [tail[0]] + tail[1..];
    } else {
      assert (a + t)[0] == a[0] && (a + t)[1..] == a[1..] + t;
      SplitAfterPart(a[1..], t, sep);
      var rest := Split(a[1..] + t, sep);
      assert rest[0] == a[1..] + tail[0] && rest[1..] == tail[1..];
      assert [a[0]] + rest[0] == a + tail[0];
    }
  }

  /**
   * A separator-free text that `s` continues with `sep` is the first part of `s`:
   * the first part is the only text before the first separator.
   */
  lemma {:induction false} SplitFirstPartUnique(a: string, s: string, sep: char)
    requires sep !in a && a + [sep] <= s
    ensures Split(s, sep)[0] == a
  {
    var rest := s[|a| + 1..];
    assert s == a + ([sep] + rest);
    SplitAfterPart(a, [sep] + rest, sep);
    assert ([sep] + rest)[0] == sep && ([sep] + rest)[1..] == rest;
    assert Split([sep] + rest, sep)[0] == "";
    assert a + "" == a;
  }

  /** Split inverts Join on separator-free parts: it is the only such decomposition. */
  lemma {:induction false} SplitJoin(parts: seq<string>, sep: char)
    requires |parts| >= 1
    requires forall i :: 0 <= i < |parts| ==> sep !in parts[i]
    ensures Split(Join(parts, sep), sep) == parts
    decreases |parts|
  {
    if |parts| == 1 {
      SplitAfterPart(parts[0], "", sep);
      assert parts[0] + "" == parts[0];
    } else {
      var rest := Join(parts[1..], sep);
      SplitJoin(parts[1..], sep);
      assert Join(parts, sep) == parts[0] + ([sep] + rest);
      SplitAfterPart(parts[0], [sep] + rest, sep);
      assert ([sep] + rest)[0] == sep && ([sep] + rest)[1..] == rest;
      var after := Split([sep] + rest, sep);
      assert after == [""] + parts[1..];
      assert after[0] == "" && after[1..] == parts[1..];
      assert parts[0] + after[0] == parts[0];
      assert parts == [parts[0]] + parts[1..];
    }
  }
}
