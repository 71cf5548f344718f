/** String helpers of sorter.h: the prefix test that every `strncmp(x, y, strlen(y)) == 0`
    amounts to, `make_lowercase_string`, `sanitize_data`, `string_is_member` and the header
    comparison of `verify_header`. C strings are modelled as NUL-free `seq<char>`. */
module Text {

  datatype Option<T> = None | Some(value: T)

  datatype Result<T, E> = Ok(value: T) | Err(error: E)

  /** `strncmp(s, p, strlen(p)) == 0`: the comparison stops at the NUL of `p`, and a shorter
      `s` meets its own NUL first, so this holds exactly when `p` is a prefix of `s`. */
  predicate IsPrefix(p: string, s: string) {
    |p| <= |s| && s[..|p|] == p
  }

  lemma PrefixReflexive(s: string)
    ensures IsPrefix(s, s)
  {
  }

  /** Two strings that disagree at a position inside both are not prefixes of each other. */
  lemma NotPrefixAt(p: string, s: string, i: nat)
    requires i < |p| && i < |s| && p[i] != s[i]
    ensures !IsPrefix(p, s) && !IsPrefix(s, p)
  {
    if |p| <= |s| {
      assert s[..|p|][i] == s[i];
    }
    if |s| <= |p| {
      assert p[..|s|][i] == p[i];
    }
  }

  /** The character step of `make_lowercase_string` and `sanitize_title`: `c += 'a' - 'A'`
      for `A`..`Z`, everything else unchanged. */
  function LowerChar(c: char): (r: char)
    ensures 'A' <= c <= 'Z' ==> r as int == c as int + 32 && 'a' <= r <= 'z'
    ensures !('A' <= c <= 'Z') ==> r == c
  {
    if 'A' <= c <= 'Z' then (c as int + ('a' as int - 'A' as int)) as char else c
  }

  /** `make_lowercase_string` (sorter.h:674-689). The 256-byte static buffer is not modelled. */
  function ToLower(s: string): (r: string)
    ensures |r| == |s|
    ensures forall i :: 0 <= i < |s| && r[i] != s[i] ==> 'A' <= s[i] <= 'Z'
    ensures forall i :: 0 <= i < |s| && 'A' <= s[i] <= 'Z' ==> r[i] as int == s[i] as int + 32
    ensures forall i :: 0 <= i < |r| ==> !('A' <= r[i] <= 'Z')
  {
    seq(|s|, i requires 0 <= i < |s| => LowerChar(s[i]))
  }

  lemma ToLowerIdempotent(s: string)
    ensures ToLower(ToLower(s)) == ToLower(s)
  {
  }

  /** Lower-casing keeps prefixes: a case-sensitive prefix is a case-insensitive one. */
  lemma {:induction false} ToLowerKeepsPrefix(p: string, s: string)
    requires IsPrefix(p, s)
    ensures IsPrefix(ToLower(p), ToLower(s))
  {
    forall i | 0 <= i < |p|
      ensures ToLower(s)[..|p|][i] == ToLower(p)[i]
    {
      assert s[..|p|][i] == p[i];
    }
  }

  /** The characters `sanitize_data` removes: the double quote and the newline. */
  predicate IsDataJunk(c: char) {
    c == '"' || c == '\n'
  }

  /** `sanitize_data` (sorter.h:514-528): drops every `"` and `\n`, keeping the rest in order.
      The 256-byte static buffer is not modelled. */
  function SanitizeData(s: string): (r: string)
    ensures |r| <= |s|
    ensures forall i :: 0 <= i < |r| ==> !IsDataJunk(r[i])
  {
    if s == [] then []
    else
      (if IsDataJunk(s[0]) then [] else [s[0]]) + SanitizeData(s[1..])
  }

  /** `sanitize_data` works character by character, so it distributes over concatenation:
      together with the single-character case this says the kept characters stay in order. */
  lemma {:induction false} SanitizeDataAppend(a: string, b: string)
    ensures SanitizeData(a + b) == SanitizeData(a) + SanitizeData(b)
  {
    if a == [] {
      assert a + b == b;
    } else {
      var head := if IsDataJunk(a[0]) then [] else [a[0]];
      assert (a + b)[0] == a[0];
      assert (a + b)[1..] == a[1..] + b;
      assert SanitizeData(a + b) == head + SanitizeData(a[1..] + b);
      SanitizeDataAppend(a[1..], b);
      assert SanitizeData(a) == head + SanitizeData(a[1..]);
    }
  }

  /** Every character other than `"` and `\n` occurs in the output exactly as often as in the
      input: nothing else is removed. */
  lemma {:induction false} SanitizeDataKeepsOthers(s: string, c: char)
    requires !IsDataJunk(c)
    ensures multiset(SanitizeData(s))[c] == multiset(s)[c]
  {
    if s != [] {
      assert s == [s[0]] + s[1..];
      SanitizeDataKeepsOthers(s[1..], c);
    }
  }

  /** A string without quotes or newlines passes through unchanged. */
  lemma {:induction false} SanitizeDataKeepsClean(s: string)
    requires forall i :: 0 <= i < |s| ==> !IsDataJunk(s[i])
    ensures SanitizeData(s) == s
  {
    if s != [] {
      SanitizeDataKeepsClean(s[1..]);
    }
  }

  lemma SanitizeDataIdempotent(s: string)
    ensures SanitizeData(SanitizeData(s)) == SanitizeData(s)
  {
    SanitizeDataKeepsClean(SanitizeData(s));
  }

  /** `string_is_member` (sorter.h:531-536): some member has `value` as a prefix (not equality:
      the comparison runs over `strlen(value)` bytes only). */
  function StringIsMember(values: seq<string>, value: string): (r: bool)
    ensures r <==> exists i :: 0 <= i < |values| && IsPrefix(value, values[i])
  {
    if values == [] then false
    else if IsPrefix(value, values[0]) then true
    else
      var rest := StringIsMember(values[1..], value);
      assert forall i :: 1 <= i < |values| ==> values[i] == values[1..][i - 1];
      rest
  }

  /** `EXPECTED_HEADER` (sorter.h:9), tabs and the trailing newline included. */
  const ExpectedHeader: string :=
    "TITLE\tAUTHOR(s)\t" + "\"TRANSLATOR(s), EDITOR(s), etc.\"\t" + "SUBJECT\tSTATUS\tDATE\tISBN\n"

  /** The comparison in `verify_header` (sorter.h:402) on the line `fgets` returned: `None`
      (the source's NULL) on success, the offending line otherwise. It compares only
      `strlen(line)` bytes, so every truncation of the expected header passes. */
  function VerifyHeader(line: string): (r: Option<string>)
    ensures r.None? <==> exists k :: 0 <= k <= |ExpectedHeader| && line == ExpectedHeader[..k]
    ensures r.Some? ==> r.value == line
  {
    if IsPrefix(line, ExpectedHeader) then None else Some(line)
  }

  lemma HeaderAcceptsExactAndEmpty()
    ensures VerifyHeader(ExpectedHeader).None?
    ensures VerifyHeader("").None?
  {
    assert ExpectedHeader == ExpectedHeader[..|ExpectedHeader|];
    assert "" == ExpectedHeader[..0];
  }

  lemma HeaderRejectsOtherColumns()
    ensures VerifyHeader("NAME\tAUTHOR(s)\n") == Some("NAME\tAUTHOR(s)\n")
    ensures VerifyHeader(ExpectedHeader + "x").Some?
  {
    assert ExpectedHeader[0] == 'T';
    NotPrefixAt("NAME\tAUTHOR(s)\n", ExpectedHeader, 0);
  }

  /** Output formats chosen by `open_files` (sorter.h:112-116, 128-137). */
  datatype OutputFormat = OutputStdout | OutputTxt | OutputHtml

  /** The format selection of `open_files`: no output name means standard output, and a name
      whose last five characters are `.html` means HTML. The source reads five bytes before the
      end of the name without checking its length, so names shorter than five are excluded. */
  function SelectOutputFormat(outputFilename: Option<string>): (f: OutputFormat)
    requires outputFilename.Some? ==> |outputFilename.value| >= 5
    ensures f == OutputStdout <==> outputFilename.None?
    ensures f == OutputHtml <==>
      (outputFilename.Some? && outputFilename.value[|outputFilename.value| - 5..] == ".html")
  {
    match outputFilename
    case None => OutputStdout
    case Some(name) =>
      if IsPrefix(".html", name[|name| - 5..]) then OutputHtml else OutputTxt
  }
}
