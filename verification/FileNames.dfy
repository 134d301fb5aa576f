/** File names and media types as the container keeps them (src/container.rs,
    `safe_file_name` and `normalize_mime_type`).  Text is a sequence of Unicode
    scalar values. */
module FileNames {
  import opened Common

  const DEFAULT_NAME: string := "transfer.bin"
  const DEFAULT_MIME: string := "application" + ("/" + "octet-stream")

  /** Unicode White_Space. */
  predicate IsSpace(c: char) {
    var v := c as int;
    0x09 <= v <= 0x0d || v == 0x20 || v == 0x85 || v == 0xa0 || v == 0x1680 || 0x2000 <= v <= 0x200a
    || v == 0x2028 || v == 0x2029 || v == 0x202f || v == 0x205f || v == 0x3000
  }

  predicate IsControl(c: char) {
    c as int <= 0x1f || c as int == 0x7f
  }

  predicate IsBidiControl(c: char) {
    var v := c as int;
    v == 0x061c || v == 0x200e || v == 0x200f || 0x202a <= v <= 0x202e || 0x2066 <= v <= 0x2069
  }

  predicate IsSeparator(c: char) {
    c == '/' || c == '\\'
  }

  predicate IsReserved(c: char) {
    c == '<' || c == '>' || c == ':' || c == '"' || c == '|' || c == '?' || c == '*'
  }

  /** Characters a sanitised name may contain. */
  predicate Plain(c: char) {
    !IsControl(c) && !IsBidiControl(c) && !IsSeparator(c) && !IsReserved(c)
  }

  ghost predicate AllPlain(s: string) {
    forall i :: 0 <= i < |s| ==> Plain(s[i])
  }

  /* ---------- trimming ---------- */

  function TrimStart(s: string): (r: string)
    ensures r == [] || !IsSpace(r[0])
  {
    if s != [] && IsSpace(s[0]) then TrimStart(s[1..]) else s
  }

  function TrimEnd(s: string): (r: string)
    ensures r <= s && (r == [] || !IsSpace(r[|r| - 1]))
    ensures s != [] && !IsSpace(s[|s| - 1]) ==> r == s
  {
    if s != [] && IsSpace(s[|s| - 1]) then TrimEnd(s[..|s| - 1]) else s
  }

  function Trim(s: string): (r: string)
    ensures r == [] || (!IsSpace(r[0]) && !IsSpace(r[|r| - 1]))
  {
    TrimEnd(TrimStart(s))
  }

  predicate IsDotOrBlank(c: char) {
    c == '.' || c == ' '
  }

  function TrimEndDots(s: string): (r: string)
    ensures r <= s && (r == [] || !IsDotOrBlank(r[|r| - 1]))
    ensures s != [] && !IsDotOrBlank(s[|s| - 1]) ==> r == s
  {
    if s != [] && IsDotOrBlank(s[|s| - 1]) then TrimEndDots(s[..|s| - 1]) else s
  }

  lemma {:induction false} TrimKeeps(s: string)
    ensures AllPlain(s) ==> AllPlain(Trim(s))
  {
    TrimStartKeeps(s);
  }

  lemma {:induction false} TrimStartKeeps(s: string)
    ensures AllPlain(s) ==> AllPlain(TrimStart(s))
  {
    if s != [] && IsSpace(s[0]) { TrimStartKeeps(s[1..]); }
  }

  lemma TrimFixed(s: string)
    requires s == [] || (!IsSpace(s[0]) && !IsSpace(s[|s| - 1]))
    ensures Trim(s) == s
  {
  }

  /* ---------- file names ---------- */

  /** What follows the last path separator. */
  function Base(s: string): (r: string)
    ensures forall i :: 0 <= i < |r| ==> !IsSeparator(r[i])
  {
    if s == [] || IsSeparator(s[|s| - 1]) then []
    else Base(s[..|s| - 1]) + [s[|s| - 1]]
  }

  /** Drops control and bidirectional-control characters and replaces reserved ones. */
  function Clean(s: string): (r: string)
    ensures (forall i :: 0 <= i < |s| ==> !IsSeparator(s[i])) ==> AllPlain(r)
  {
    if s == [] then []
    else
      var c := s[|s| - 1];
      var rest := Clean(s[..|s| - 1]);
      if IsControl(c) || IsBidiControl(c) then rest
      else if IsReserved(c) then rest + ['_']
      else rest + [c]
  }

  function Upper(c: char): char {
    if 'a' <= c <= 'z' then c - 'a' + 'A' else c
  }

  /** Up to the first dot. */
  function Stem(s: string): (r: string)
    ensures r <= s
  {
    if s == [] || s[0] == '.' then [] else [s[0]] + Stem(s[1..])
  }

  function UpperAll(s: string): (r: string)
    ensures |r| == |s| && forall i :: 0 <= i < |s| ==> r[i] == Upper(s[i])
  {
    seq(|s|, i requires 0 <= i < |s| => Upper(s[i]))
  }

  predicate IsDeviceName(stem: string) {
    var u := UpperAll(stem);
    || u == "CON" || u == "PRN" || u == "AUX" || u == "NUL"
    || (|u| == 4 && (u[..3] == "COM" || u[..3] == "LPT") && '1' <= u[3] <= '9')
  }

  /** The name after all filtering and trimming, before the fallbacks. */
  function Core(name: string): (r: string)
    ensures r == [] || (!IsSpace(r[0]) && !IsDotOrBlank(r[|r| - 1]))
  {
    TrimEndDots(Trim(Clean(Base(name))))
  }

  function SafeFileName(name: string): string {
    var cleaned := Core(name);
    if cleaned == "" || cleaned == "." || cleaned == ".." then DEFAULT_NAME
    else if IsDeviceName(Stem(cleaned)) then "_" + cleaned
    else cleaned
  }

  lemma CorePlain(name: string)
    ensures AllPlain(Core(name))
  {
    hide Base, Clean, Trim, TrimEndDots, Plain;
    TrimKeeps(Clean(Base(name)));
  }

  /** A device name starts with one of five letters, so neither the fallback nor a name with a leading
      underscore is one. */
  lemma DeviceStart(s: string)
    requires s != [] && IsDeviceName(Stem(s))
    ensures Upper(s[0]) in "CPANL"
  {
    var u := UpperAll(Stem(s));
    assert u != [] && u[0] == Upper(s[0]);
    assert |u| == 4 ==> u[0] == u[..3][0];
  }

  lemma {:induction false} PlainFixed(s: string)
    requires AllPlain(s)
    ensures Base(s) == s && Clean(s) == s
  {
    if s != [] {
      PlainFixed(s[..|s| - 1]);
    }
  }

  /** A received or stored name is harmless: one path component, printable, no trailing dot or blank, no device name. */
  lemma SafeNameIsSafe(name: string)
    ensures var r := SafeFileName(name);
            && r != "" && r != "." && r != ".." && AllPlain(r)
            && !IsDotOrBlank(r[|r| - 1]) && !IsSpace(r[0]) && !IsDeviceName(Stem(r))
  {
    hide Core, IsDeviceName, Stem;
    CorePlain(name);
    var c := Core(name);
    if c == "" || c == "." || c == ".." {
      DefaultIsSafe();
    } else if IsDeviceName(Stem(c)) {
      assert AllPlain("_" + c);
      if IsDeviceName(Stem("_" + c)) { DeviceStart("_" + c); }
    }
  }

  lemma DefaultIsSafe()
    ensures AllPlain(DEFAULT_NAME) && !IsDeviceName(Stem(DEFAULT_NAME))
  {
    hide IsDeviceName, Stem, Plain;
    if IsDeviceName(Stem(DEFAULT_NAME)) { DeviceStart(DEFAULT_NAME); }
    forall i | 0 <= i < |DEFAULT_NAME| ensures Plain(DEFAULT_NAME[i]) {
      LetterPlain(DEFAULT_NAME[i]);
    }
  }

  lemma LetterPlain(c: char)
    requires 'a' <= c <= 'z' || c == '.'
    ensures Plain(c)
  {
  }

  /** What the last step, which cuts trailing dots and blanks, is given. */
  function Trimmed(name: string): string {
    Trim(Clean(Base(name)))
  }

  /** Behind position `i` there are only dots and blanks, and at least one of them. */
  predicate OnlyTail(t: string, i: nat) {
    i + 1 < |t| && forall j :: i < j < |t| ==> IsDotOrBlank(t[j])
  }

  /** The text given to the last step has white space other than the blank right before its trailing dots and blanks,
      for instance a no-break space before a final dot. */
  predicate HidesSpace(name: string) {
    exists i :: 0 <= i < |Trimmed(name)| && IsSpace(Trimmed(name)[i]) && Trimmed(name)[i] != ' ' && OnlyTail(Trimmed(name), i)
  }

  /** Cutting the tail uncovers exactly the character before it. */
  lemma {:induction false} TailCut(t: string, i: nat)
    requires i < |t| && !IsDotOrBlank(t[i]) && forall j :: i < j < |t| ==> IsDotOrBlank(t[j])
    ensures TrimEndDots(t) == t[..i + 1]
  {
    if i + 1 < |t| {
      TailCut(t[..|t| - 1], i);
      assert t[..|t| - 1][..i + 1] == t[..i + 1];
    }
  }

  lemma {:induction false} CutIsTail(t: string)
    ensures forall j :: |TrimEndDots(t)| <= j < |t| ==> IsDotOrBlank(t[j])
  {
    if t != [] && IsDotOrBlank(t[|t| - 1]) { CutIsTail(t[..|t| - 1]); }
  }

  /** The sanitised text ends in white space exactly when the last step uncovers it. */
  lemma UncoversSpace(name: string)
    ensures HidesSpace(name) <==> Core(name) != [] && IsSpace(Core(name)[|Core(name)| - 1])
  {
    hide Trim, Clean, Base, IsSpace, TrimEndDots;
    var t, c := Trimmed(name), Core(name);
    if i: nat :| i < |t| && IsSpace(t[i]) && t[i] != ' ' && OnlyTail(t, i) {
      DotIsNoSpace(t[i]);
      TailCut(t, i);
    }
    if c != [] && IsSpace(c[|c| - 1]) {
      var i := |c| - 1;
      CutIsTail(t);
      assert t[i] == c[i];
      assert |c| == |t| ==> c == t;
      assert OnlyTail(t, i);
    }
  }

  lemma DotIsNoSpace(c: char)
    requires IsSpace(c) && c != ' '
    ensures !IsDotOrBlank(c)
  {
  }

  /** Sanitising twice changes nothing, except for names with white space hidden behind trailing dots and blanks. */
  lemma SafeFileNameIdempotent(name: string)
    ensures SafeFileName(SafeFileName(name)) == SafeFileName(name) <==> !HidesSpace(name)
  {
    hide Core, IsDeviceName, Stem, IsSpace, HidesSpace;
    var r := SafeFileName(name);
    SafeNameIsSafe(name);
    UncoversSpace(name);
    if HidesSpace(name) {
      SecondPassShrinks(r);
    } else {
      NoSpaceAtEnd(name);
      CoreFixed(r);
    }
  }

  lemma NoSpaceAtEnd(name: string)
    requires !(Core(name) != [] && IsSpace(Core(name)[|Core(name)| - 1]))
    ensures var r := SafeFileName(name); r == [] || !IsSpace(r[|r| - 1])
  {
    hide IsSpace, IsDeviceName, Stem, Core;
    NoSpaceInDefault();
  }

  lemma CoreFixed(r: string)
    requires AllPlain(r) && r != [] && !IsSpace(r[0]) && !IsSpace(r[|r| - 1]) && !IsDotOrBlank(r[|r| - 1])
    ensures Core(r) == r
  {
    PlainFixed(r);
    TrimFixed(r);
  }

  lemma SecondPassShrinks(r: string)
    requires AllPlain(r) && r != [] && !IsSpace(r[0]) && IsSpace(r[|r| - 1])
    ensures SafeFileName(r) != r
  {
    hide IsSpace, IsDeviceName, Stem;
    PlainFixed(r);
    assert TrimStart(r) == r;
    var c := Core(r);
    assert c <= Trim(r) <= r && c != r;
    NoSpaceInDefault();
    if c != [] && IsDeviceName(Stem(c)) {
      DeviceStart(c);
      assert ("_" + c)[0] != c[0];
    }
  }

  lemma NoSpaceInDefault()
    ensures !IsSpace(DEFAULT_NAME[|DEFAULT_NAME| - 1])
  {
  }

  const NO_BREAK_SPACE: char := 0xa0 as char

  /** A no-break space before a final dot survives the first pass and not the second. */
  lemma NotAlwaysIdempotent()
    ensures var name := ['a', NO_BREAK_SPACE, '.']; SafeFileName(SafeFileName(name)) != SafeFileName(name)
  {
    hide SafeFileName, Base, Clean, Trim;
    var name := ['a', NO_BREAK_SPACE, '.'];
    PlainFixed(name);
    TrimFixed(name);
    HidesAt(name, 1);
    SafeFileNameIdempotent(name);
  }

  lemma HidesAt(name: string, i: nat)
    requires i < |Trimmed(name)| && IsSpace(Trimmed(name)[i]) && Trimmed(name)[i] != ' ' && OnlyTail(Trimmed(name), i)
    ensures HidesSpace(name)
  {
  }

  /** Names whose only white space is ASCII are sanitised once and for all. */
  lemma AsciiNamesAreFixed(name: string)
    requires forall i :: 0 <= i < |name| && IsSpace(name[i]) ==> name[i] as int < 0x80
    ensures SafeFileName(SafeFileName(name)) == SafeFileName(name)
  {
    hide Core, SafeFileName, IsSpace;
    SafeFileNameIdempotent(name);
    if HidesSpace(name) {
      var i := ForeignSpace(name);
    }
  }

  /** Hidden white space is white space of the original name, and not ASCII. */
  lemma ForeignSpace(name: string) returns (i: nat)
    requires HidesSpace(name)
    ensures i < |name| && IsSpace(name[i]) && name[i] as int >= 0x80
  {
    hide Base, Clean;
    var t := Trimmed(name);
    var h: nat :| h < |t| && IsSpace(t[h]) && t[h] != ' ' && OnlyTail(t, h);
    TrimKeeps(Clean(Base(name)));
    assert Plain(t[h]);
    BaseChars(name);
    CleanChars(Base(name));
    TrimStartChars(Clean(Base(name)));
    assert t[h] in TrimStart(Clean(Base(name)));
    i :| 0 <= i < |name| && name[i] == t[h];
  }

  lemma {:induction false} BaseChars(s: string)
    ensures forall c :: c in Base(s) ==> c in s
  {
    if s != [] { BaseChars(s[..|s| - 1]); }
  }

  lemma {:induction false} CleanChars(s: string)
    ensures forall c :: c in Clean(s) ==> c in s || c == '_'
  {
    if s != [] { CleanChars(s[..|s| - 1]); }
  }

  lemma {:induction false} TrimStartChars(s: string)
    ensures forall c :: c in TrimStart(s) ==> c in s
  {
    if s != [] && IsSpace(s[0]) { TrimStartChars(s[1..]); }
  }

  /* ---------- what the steps do, character by character ---------- */

  /** The base is what follows the last `/` or `\`. */
  lemma {:induction false} BaseIsLast(s: string) returns (n: nat)
    ensures n <= |s| && Base(s) == s[n..] && '/' !in s[n..] && '\\' !in s[n..]
    ensures n == 0 || s[n - 1] == '/' || s[n - 1] == '\\'
  {
    if s == [] || IsSeparator(s[|s| - 1]) {
      n := |s|;
    } else {
      var m := |s| - 1;
      n := BaseIsLast(s[..m]);
      OneMore(s, n, m);
    }
  }

  lemma OneMore(s: string, n: nat, m: nat)
    requires n <= m < |s| && m == |s| - 1
    ensures s[n..] == s[..m][n..] + [s[m]]
  {
  }

  /** Cleaning works on each character by itself. */
  lemma {:induction false} CleanJoins(s: string, t: string)
    ensures Clean(s + t) == Clean(s) + Clean(t)
  {
    if t == [] {
      assert s + t == s;
    } else {
      var n := |t| - 1;
      CleanJoins(s, t[..n]);
      assert t == t[..n] + [t[n]];
      assert s + t == s + t[..n] + [t[n]];
      hide Clean;
      CleanLast(s + t[..n], t[n]);
      CleanLast(t[..n], t[n]);
      assert Clean(s) + (Clean(t[..n]) + Clean([t[n]])) == Clean(s) + Clean(t[..n]) + Clean([t[n]]);
    }
  }

  lemma CleanLast(s: string, c: char)
    ensures Clean(s + [c]) == Clean(s) + Clean([c])
  {
    hide IsControl, IsBidiControl, IsReserved;
    assert (s + [c])[..|s|] == s;
    assert [c][..0] == [];
  }

  /** It drops 33 control and 12 bidirectional-control characters, replaces seven others, and keeps the rest. */
  lemma CleanOne(c: char)
    ensures var v := c as int;
            Clean([c]) ==
            if v < 0x20 || v == 0x7f || v == 0x61c || v == 0x200e || v == 0x200f || 0x202a <= v <= 0x202e || 0x2066 <= v <= 0x2069
            then ""
            else if c in "<>:\"|?*" then "_"
            else [c]
  {
    assert [c][..0] == [];
    assert Clean([]) == [];
  }

  /** Trimming takes white space off both ends and nothing else. */
  lemma TrimSplits(s: string) returns (i: nat, j: nat)
    ensures i <= j <= |s| && Trim(s) == s[i..j]
    ensures forall m :: 0 <= m < i || j <= m < |s| ==> IsSpace(s[m])
    ensures i == j || (!IsSpace(s[i]) && !IsSpace(s[j - 1]))
  {
    i := StartSplits(s);
    var n := EndSplits(s[i..]);
    j := i + n;
    assert s[i..][..n] == s[i..j];
    forall m | j <= m < |s| ensures IsSpace(s[m]) {
      assert s[m] == s[i..][m - i];
    }
  }

  lemma {:induction false} StartSplits(s: string) returns (i: nat)
    ensures i <= |s| && TrimStart(s) == s[i..] && forall m :: 0 <= m < i ==> IsSpace(s[m])
  {
    i := 0;
    if s != [] && IsSpace(s[0]) {
      var n := StartSplits(s[1..]);
      i := n + 1;
      forall m | 0 < m < i ensures IsSpace(s[m]) {
        assert s[m] == s[1..][m - 1];
      }
    }
  }

  lemma {:induction false} EndSplits(s: string) returns (j: nat)
    ensures j <= |s| && TrimEnd(s) == s[..j] && forall m :: j <= m < |s| ==> IsSpace(s[m])
  {
    j := |s|;
    if s != [] && IsSpace(s[|s| - 1]) {
      j := EndSplits(s[..|s| - 1]);
      assert s[..|s| - 1][..j] == s[..j];
    }
  }

  /** The device names, in any case: CON, PRN, AUX, NUL, COM1 to COM9 and LPT1 to LPT9. */
  lemma DeviceNames(stem: string)
    ensures var u := UpperAll(stem);
            IsDeviceName(stem) <==>
              || u == "CON" || u == "PRN" || u == "AUX" || u == "NUL"
              || (|u| == 4 && u[0] == 'C' && u[1] == 'O' && u[2] == 'M' && u[3] in "123456789")
              || (|u| == 4 && u[0] == 'L' && u[1] == 'P' && u[2] == 'T' && u[3] in "123456789")
    ensures |UpperAll(stem)| == |stem|
    ensures forall i :: 0 <= i < |stem| ==>
              UpperAll(stem)[i] as int == stem[i] as int - (if 'a' <= stem[i] <= 'z' then 0x20 else 0)
  {
    var u := UpperAll(stem);
    if |u| == 4 {
      ThreeLetters(u, 'C', 'O', 'M');
      ThreeLetters(u, 'L', 'P', 'T');
      assert '1' <= u[3] <= '9' <==> u[3] in "123456789";
    }
  }

  lemma ThreeLetters(u: string, a: char, b: char, c: char)
    requires |u| == 4
    ensures u[..3] == [a, b, c] <==> u[0] == a && u[1] == b && u[2] == c
  {
    assert u[..3] == [u[0], u[1], u[2]];
  }

  lemma {:induction false} StemEnds(s: string)
    ensures '.' !in Stem(s) && (Stem(s) == s || s[|Stem(s)|] == '.')
  {
    if s != [] && s[0] != '.' { StemEnds(s[1..]); }
  }

  /** A name that is already harmless: no separator, reserved, control or bidirectional-control character, no white space
      at the ends and no final dot. */
  predicate Harmless(name: string) {
    && name != "" && !IsSpace(name[0]) && !IsSpace(name[|name| - 1]) && name[|name| - 1] != '.'
    && forall i :: 0 <= i < |name| ==>
         var c, v := name[i], name[i] as int;
         && c !in "/\\<>:\"|?*" && 0x20 <= v && v != 0x7f && v != 0x61c && v != 0x200e && v != 0x200f
         && !(0x202a <= v <= 0x202e) && !(0x2066 <= v <= 0x2069)
  }

  /** Exactly the harmless names that are no device names are left alone, and device names only get an underscore. */
  lemma FixedExactlyWhen(name: string)
    ensures SafeFileName(name) == name <==> Harmless(name) && !IsDeviceName(Stem(name))
    ensures Harmless(name) && IsDeviceName(Stem(name)) ==> SafeFileName(name) == "_" + name
  {
    hide Core, IsDeviceName, Stem, IsSpace, HidesSpace, Plain;
    HarmlessIsPlain(name);
    if Harmless(name) {
      BlankIsSpace();
      CoreFixed(name);
    }
    if SafeFileName(name) == name {
      SafeNameIsSafe(name);
      SafeFileNameIdempotent(name);
      UncoversSpace(name);
      NoSpaceAtEnd(name);
    }
  }

  lemma BlankIsSpace()
    ensures IsSpace(' ')
  {
  }

  lemma HarmlessIsPlain(name: string)
    ensures Harmless(name) <==>
              && name != "" && !IsSpace(name[0]) && !IsSpace(name[|name| - 1]) && name[|name| - 1] != '.' && AllPlain(name)
  {
  }

  /** A name of separators, dots and blanks only gets the default name. */
  lemma EmptyNames(name: string)
    requires forall i :: 0 <= i < |name| ==> name[i] in "/\\. "
    ensures SafeFileName(name) == "transfer.bin"
  {
    hide Base, Clean, Trim, TrimEndDots, IsDotOrBlank, Plain;
    var b := Base(name);
    BaseChars(name);
    forall i | 0 <= i < |b| ensures IsDotOrBlank(b[i]) && Plain(b[i]) {
      assert b[i] in b;
      DotOrBlank(name, b[i]);
    }
    PlainFixed(b);
    NothingButDots(b);
  }

  lemma NothingButDots(b: string)
    requires forall i :: 0 <= i < |b| ==> IsDotOrBlank(b[i])
    ensures TrimEndDots(Trim(b)) == []
  {
    hide IsDotOrBlank, Trim, IsSpace;
    var i, j := TrimSplits(b);
    var t := Trim(b);
    assert forall m :: 0 <= m < |t| ==> t[m] == b[i + m];
  }

  lemma DotOrBlank(name: string, c: char)
    requires c in name && !IsSeparator(c) && forall i :: 0 <= i < |name| ==> name[i] in "/\\. "
    ensures IsDotOrBlank(c) && Plain(c)
  {
  }

  /* ---------- media types ---------- */

  predicate IsPrintable(c: char) {
    ' ' <= c <= '~'
  }

  predicate IsToken(c: char) {
    'a' <= c <= 'z' || 'A' <= c <= 'Z' || '0' <= c <= '9' || c in "!#$%&'*+-.^_`|~"
  }

  /** The part before the first `mark`, and what follows it if there is one. */
  function SplitOnce(s: string, mark: char): (r: (string, Option<string>))
    ensures mark !in r.0
    ensures r.1.Some? ==> s == r.0 + [mark] + r.1.value
    ensures r.1.None? ==> s == r.0
  {
    if s == [] then ([], None)
    else if s[0] == mark then ([], Some(s[1..]))
    else
      var (head, tail) := SplitOnce(s[1..], mark);
      ([s[0]] + head, tail)
  }

  predicate IsTokens(s: string) {
    s != [] && forall i :: 0 <= i < |s| ==> IsToken(s[i])
  }

  /** `type/subtype`, both non-empty and made of token characters. */
  predicate IsMediaType(media: string) {
    var (kind, subtype) := SplitOnce(media, '/');
    subtype.Some? && IsTokens(kind) && IsTokens(subtype.value)
  }

  function NormalizeMimeType(mime: string): Result<string> {
    var value := Trim(mime);
    if value == [] then Ok(DEFAULT_MIME)
    else if exists i :: 0 <= i < |value| && !IsPrintable(value[i]) then Err(Meta)
    else if !IsMediaType(Trim(SplitOnce(value, ';').0)) then Err(Meta)
    else Ok(value)
  }

  /** At `n` there is a slash, neither first nor last, and everywhere else a token character. */
  ghost predicate SlashAt(m: string, n: nat) {
    && 0 < n < |m| - 1 && m[n] == '/'
    && forall i :: 0 <= i < |m| && i != n ==>
         'a' <= m[i] <= 'z' || 'A' <= m[i] <= 'Z' || '0' <= m[i] <= '9' || m[i] in "!#$%&'*+-.^_`|~"
  }

  ghost predicate TokensAroundSlash(m: string) {
    exists n :: SlashAt(m, n)
  }

  lemma MediaExactlyWhen(m: string)
    ensures IsMediaType(m) <==> TokensAroundSlash(m)
  {
    hide SplitOnce, IsToken, SlashAt;
    if IsMediaType(m) {
      var (kind, subtype) := SplitOnce(m, '/');
      MediaSlash(kind, subtype.value);
      assert m == kind + ['/'] + subtype.value;
    }
    if n :| SlashAt(m, n) {
      SlashMedia(m, n);
    }
  }

  lemma MediaSlash(kind: string, subtype: string)
    requires IsTokens(kind) && IsTokens(subtype)
    ensures SlashAt(kind + ['/'] + subtype, |kind|)
  {
  }

  lemma SlashMedia(m: string, n: nat)
    requires SlashAt(m, n)
    ensures IsMediaType(m)
  {
    hide SplitOnce, IsTokens;
    Unsplit(m[..n], m[n..], '/');
    assert m[..n] + m[n..] == m;
    assert m[n..][1..] == m[n + 1..];
    TokenParts(m, n);
  }

  lemma TokenParts(m: string, n: nat)
    requires SlashAt(m, n)
    ensures IsTokens(m[..n]) && IsTokens(m[n + 1..]) && '/' !in m[..n]
  {
  }

  /** Exactly the trimmed texts are accepted that are printable ASCII and whose part before the first semicolon is such a
      media type; an empty text stands for the default type, and everything else is refused. */
  lemma NormalizeExactlyWhen(mime: string, e: nat)
    requires var v := Trim(mime); e <= |v| && ';' !in v[..e] && (e == |v| || v[e] == ';')
    ensures var v := Trim(mime);
            NormalizeMimeType(mime) ==
            if v == "" then Ok("application" + ("/" + "octet-stream"))
            else if (forall i :: 0 <= i < |v| ==> 0x20 <= v[i] as int <= 0x7e) && TokensAroundSlash(Trim(v[..e])) then Ok(v)
            else Err(Meta)
  {
    hide Trim, SplitOnce, IsMediaType, TokensAroundSlash;
    var v := Trim(mime);
    Unsplit(v[..e], v[e..], ';');
    assert v[..e] + v[e..] == v;
    MediaExactlyWhen(Trim(v[..e]));
  }

  /** Normalising is idempotent, and its results are printable. */
  lemma NormalizeIdempotent(mime: string)
    requires NormalizeMimeType(mime).Ok?
    ensures NormalizeMimeType(NormalizeMimeType(mime).value) == NormalizeMimeType(mime)
  {
    hide IsMediaType, SplitOnce;
    var value := NormalizeMimeType(mime).value;
    if Trim(mime) == [] {
      DefaultMime();
    } else {
      TrimFixed(value);
    }
  }

  lemma DefaultMime()
    ensures NormalizeMimeType(DEFAULT_MIME) == Ok(DEFAULT_MIME)
  {
    hide SplitOnce, Trim, IsTokens;
    TrimFixed(DEFAULT_MIME);
    Unsplit(DEFAULT_MIME, [], ';');
    assert DEFAULT_MIME + [] == DEFAULT_MIME;
    DefaultMedia();
    forall i | 0 <= i < |DEFAULT_MIME| ensures IsPrintable(DEFAULT_MIME[i]) {
    }
  }

  lemma DefaultMedia()
    ensures IsMediaType(DEFAULT_MIME)
  {
    hide SplitOnce;
    var kind, subtype := "application", "octet-stream";
    Unsplit(kind, "/" + subtype, '/');
    assert kind + ("/" + subtype) == DEFAULT_MIME;
    assert ("/" + subtype)[1..] == subtype;
  }

  lemma {:induction false} Unsplit(head: string, rest: string, mark: char)
    requires mark !in head && (rest == [] || rest[0] == mark)
    ensures SplitOnce(head + rest, mark) == (head, if rest == [] then None else Some(rest[1..]))
  {
    if head == [] {
      assert head + rest == rest;
    } else {
      assert (head + rest)[1..] == head[1..] + rest;
      assert head == [head[0]] + head[1..];
      Unsplit(head[1..], rest, mark);
    }
  }
}
