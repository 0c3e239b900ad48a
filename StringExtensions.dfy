/** Extension methods on string: the leftmost or rightmost characters, and
    turning a string into a valid file name.  A null string is None. */
module StringExtensions {
  import opened Wrappers
  import opened Numerics

  /** Char.IsWhiteSpace: U+0009 to U+000D, U+0085, and the Unicode space,
      line and paragraph separators. */
  predicate IsWhiteSpace(c: char) {
    || ('\t' <= c <= '\r')
    || c == ' ' || c == '\U{0085}' || c == '\U{00A0}' || c == '\U{1680}'
    || ('\U{2000}' <= c <= '\U{200A}')
    || c == '\U{2028}' || c == '\U{2029}' || c == '\U{202F}' || c == '\U{205F}'
    || c == '\U{3000}'
  }

  /** String.IsNullOrWhiteSpace: null, empty, or white space only. */
  predicate IsNullOrWhiteSpace(value: Option<string>) {
    value.None? || forall i :: 0 <= i < |value.value| ==> IsWhiteSpace(value.value[i])
  }

  /** A string is blank exactly when both of its parts are: a null or
      blank value is one without a single non-white-space character. */
  lemma {:induction false} BlankConcat(a: string, b: string)
    ensures IsNullOrWhiteSpace(Some(a + b)) <==> IsNullOrWhiteSpace(Some(a)) && IsNullOrWhiteSpace(Some(b))
    ensures IsNullOrWhiteSpace(None) && IsNullOrWhiteSpace(Some(""))
  {
    var s := a + b;
    if IsNullOrWhiteSpace(Some(s)) {
      forall i | 0 <= i < |b| ensures IsWhiteSpace(b[i]) {
        assert b[i] == s[|a| + i];
      }
      forall i | 0 <= i < |a| ensures IsWhiteSpace(a[i]) {
        assert a[i] == s[i];
      }
    }
    if IsNullOrWhiteSpace(Some(a)) && IsNullOrWhiteSpace(Some(b)) {
      forall i | 0 <= i < |s| ensures IsWhiteSpace(s[i]) {
        if i < |a| {
          assert s[i] == a[i];
        } else {
          assert s[i] == b[i - |a|];
        }
      }
    }
  }

  /** Math.Abs on an int; it throws for int.MinValue, whose magnitude is not
      an int. */
  function Abs(n: Int32): (r: Int32)
    requires n != MinInt32
    ensures r >= 0 && (r == n || r == -n)
  {
    if n < 0 then -n else n
  }

  /** Right: the last |length| characters.  A null or white-space string is
      returned as it is; otherwise Substring throws unless |length| fits. */
  function Right(value: Option<string>, length: Int32): (r: Option<string>)
    requires !IsNullOrWhiteSpace(value) ==> length != MinInt32 && Abs(length) <= |value.value|
    ensures IsNullOrWhiteSpace(value) ==> r == value
    ensures !IsNullOrWhiteSpace(value) ==>
      && r.Some? && |r.value| == Abs(length)
      && value.value == value.value[..|value.value| - Abs(length)] + r.value
  {
    if IsNullOrWhiteSpace(value) then value
    else
      var n := Abs(length);
      Some(value.value[|value.value| - n..])
  }

  /** Left: the first |length| characters, on the same terms as Right. */
  function Left(value: Option<string>, length: Int32): (r: Option<string>)
    requires !IsNullOrWhiteSpace(value) ==> length != MinInt32 && Abs(length) <= |value.value|
    ensures IsNullOrWhiteSpace(value) ==> r == value
    ensures !IsNullOrWhiteSpace(value) ==>
      && r.Some? && |r.value| == Abs(length)
      && value.value == r.value + value.value[Abs(length)..]
  {
    if IsNullOrWhiteSpace(value) then value
    else
      var n := Abs(length);
      Some(value.value[..n])
  }

  /** Splitting a string into its first k and its last |s| - k characters
      loses nothing. */
  lemma LeftRightSplit(s: string, k: Int32)
    requires !IsNullOrWhiteSpace(Some(s))
    requires 0 <= k <= |s| <= MaxInt32
    ensures Left(Some(s), k).value + Right(Some(s), |s| - k).value == s
  {
    var l, r := Left(Some(s), k).value, Right(Some(s), |s| - k).value;
    assert s == l + s[k..];
    assert s == s[..k] + r;
  }

  // ---------------------------------------------------------------------
  // File names
  // ---------------------------------------------------------------------

  /** String.Replace(oldChar, newChar): every oldChar becomes newChar. */
  function Replace(s: string, oldChar: char, newChar: char): (r: string)
    ensures |r| == |s|
    ensures forall i :: 0 <= i < |s| && s[i] != oldChar ==> r[i] == s[i]
    ensures forall i :: 0 <= i < |s| && s[i] == oldChar ==> r[i] == newChar
  {
    seq(|s|, i requires 0 <= i < |s| => if s[i] == oldChar then newChar else s[i])
  }

  /** s with every character of invalid replaced by '_'. */
  function Sanitized(s: string, invalid: seq<char>): (r: string)
    ensures |r| == |s|
  {
    seq(|s|, i requires 0 <= i < |s| => if s[i] in invalid then '_' else s[i])
  }

  /** MakeValidFilename: one Replace(c, '_') per invalid character (the
      platform's Path.GetInvalidFileNameChars(), passed in). */
  method MakeValidFilename(filename: string, invalid: seq<char>) returns (r: string)
    ensures r == Sanitized(filename, invalid)
  {
    r := filename;
    for i := 0 to |invalid|
      invariant r == Sanitized(filename, invalid[..i])
    {
      SanitizedStep(filename, invalid, i);
      r := Replace(r, invalid[i], '_');
    }
    assert invalid[..|invalid|] == invalid;
  }

  lemma SanitizedStep(s: string, invalid: seq<char>, i: int)
    requires 0 <= i < |invalid|
    ensures Replace(Sanitized(s, invalid[..i]), invalid[i], '_') == Sanitized(s, invalid[..i + 1])
  {
    var a := Replace(Sanitized(s, invalid[..i]), invalid[i], '_');
    var b := Sanitized(s, invalid[..i + 1]);
    assert invalid[..i + 1] == invalid[..i] + [invalid[i]];
    assert forall j :: 0 <= j < |s| ==> a[j] == b[j];
  }

  /** The sanitised name keeps the length and every valid character, puts
      '_' exactly where an invalid one was, and (when '_' is itself valid)
      contains no invalid character. */
  lemma {:induction false} SanitizedProperties(s: string, invalid: seq<char>)
    ensures |Sanitized(s, invalid)| == |s|
    ensures forall i :: 0 <= i < |s| && s[i] !in invalid ==> Sanitized(s, invalid)[i] == s[i]
    ensures forall i :: 0 <= i < |s| && s[i] in invalid ==> Sanitized(s, invalid)[i] == '_'
    ensures '_' !in invalid ==> forall i :: 0 <= i < |s| ==> Sanitized(s, invalid)[i] !in invalid
  {
  }

  /** Sanitising twice is sanitising once, whatever the invalid set. */
  lemma SanitizedIdempotent(s: string, invalid: seq<char>)
    ensures Sanitized(Sanitized(s, invalid), invalid) == Sanitized(s, invalid)
  {
    var once := Sanitized(s, invalid);
    var twice := Sanitized(once, invalid);
    assert forall i :: 0 <= i < |s| ==> twice[i] == once[i];
  }

  /** Ordinal String.EndsWith. */
  predicate EndsWith(s: string, suffix: string) {
    |suffix| <= |s| && s[|s| - |suffix|..] == suffix
  }

  /** A string ends with a suffix exactly when it is something followed by
      that suffix. */
  lemma EndsWithConcat(s: string, suffix: string)
    ensures EndsWith(s + suffix, suffix)
    ensures EndsWith(s, suffix) <==> exists p: string :: p + suffix == s
  {
    assert (s + suffix)[|s|..] == suffix;
    if EndsWith(s, suffix) {
      var p := s[..|s| - |suffix|];
      assert p + suffix == s;
    }
    if exists p: string :: p + suffix == s {
      var p: string :| p + suffix == s;
      assert s[|s| - |suffix|..] == suffix;
    }
  }

  /** The name MakeValidFilenameForTxtFile produces. */
  function TxtFilename(s: string, invalid: seq<char>): (r: string)
    ensures EndsWith(r, ".txt")
  {
    var f := Sanitized(s, invalid);
    if EndsWith(f, ".txt") then f else f + ".txt"
  }

  /** MakeValidFilenameForTxtFile: sanitise, then append ".txt" unless the
      name already ends with it. */
  method MakeValidFilenameForTxtFile(filename: string, invalid: seq<char>) returns (r: string)
    ensures r == TxtFilename(filename, invalid)
    ensures EndsWith(r, ".txt")
  {
    r := MakeValidFilename(filename, invalid);
    if !EndsWith(r, ".txt") {
      r := r + ".txt";
    }
  }

  /** ".txt" is appended exactly when the sanitised name lacks it. */
  lemma TxtFilenameAppends(s: string, invalid: seq<char>)
    ensures EndsWith(Sanitized(s, invalid), ".txt") ==> TxtFilename(s, invalid) == Sanitized(s, invalid)
    ensures !EndsWith(Sanitized(s, invalid), ".txt") ==>
      TxtFilename(s, invalid) == Sanitized(s, invalid) + ".txt"
  {
  }

  /** Applying the rule twice gives the same name, provided the characters
      of ".txt" are valid (they are on every platform). */
  lemma TxtFilenameIdempotent(s: string, invalid: seq<char>)
    requires '.' !in invalid && 't' !in invalid && 'x' !in invalid
    ensures TxtFilename(TxtFilename(s, invalid), invalid) == TxtFilename(s, invalid)
  {
    var once := TxtFilename(s, invalid);
    var f := Sanitized(s, invalid);
    SanitizedIdempotent(s, invalid);
    if !EndsWith(f, ".txt") {
      var g := Sanitized(once, invalid);
      assert forall i :: 0 <= i < |once| ==> g[i] == once[i] by {
        forall i | 0 <= i < |once|
          ensures g[i] == once[i]
        {
          if i < |f| {
            assert once[i] == f[i];
            assert g[i] == Sanitized(f, invalid)[i];
          } else {
            assert once[i] in ".txt";
          }
        }
      }
      assert g == once;
    }
  }
}
