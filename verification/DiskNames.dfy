/** Names on the installation disks: 8.3 name fields, and names of compressed files. */
module DiskNames {
  import opened Bytes

  datatype Error =
    | BadBootSector | TooManyFiles | BadSerial | LabelNotAscii | DiskFull
    | NotRootLevel | Not83 | NameNotAscii | BadAttributes
    | EmptyName | DuplicateName | BadMissing | FileTooLong

  datatype Result<+T> = Ok(value: T) | Err(error: Error)

  type NameField = s: seq<byte> | |s| == 11 witness [0, 0, 0, 0, 0, 0, 0, 0, 0, 0, 0]

  // The full upper case of one character, which may be several; whichever the library has.
  type Casing = char -> string

  function Upper(s: string, casing: Casing): string {
    if s == "" then "" else casing(s[0]) + Upper(s[1..], casing)
  }

  predicate Fixed(s: string, casing: Casing) {
    forall i | 0 <= i < |s| :: casing(s[i]) == [s[i]]
  }

  // What upper case means: upper-casing again changes nothing, nor does it change the
  // characters that names are put together with.
  ghost predicate Uppercases(casing: Casing) {
    (forall c :: Fixed(casing(c), casing)) && Fixed("._", casing)
  }

  lemma {:induction false} UpperFixed(s: string, casing: Casing)
    requires Fixed(s, casing)
    ensures Upper(s, casing) == s
  {
    if s != "" {
      UpperFixed(s[1..], casing);
      assert [s[0]] + s[1..] == s;
    }
  }

  lemma {:induction false} UpperIsFixed(s: string, casing: Casing)
    requires Uppercases(casing)
    ensures Fixed(Upper(s, casing), casing)
  {
    if s != "" {
      UpperIsFixed(s[1..], casing);
    }
  }

  // The text before the first dot; all of it when there is none.
  function Stem(s: string): (r: string)
    ensures '.' !in r && r <= s && (|r| < |s| ==> s[|r|] == '.')
  {
    if s == "" || s[0] == '.' then "" else
      var rest := Stem(s[1..]);
      assert forall c <- [s[0]] + rest :: c != '.';
      [s[0]] + rest
  }

  predicate HasDot(s: string) { |Stem(s)| < |s| }

  // The text after the first dot.
  function Extension(s: string): (r: string)
    ensures |r| <= |s|
    ensures s == Stem(s) + (if HasDot(s) then "." + r else "")
  {
    if HasDot(s) then s[|Stem(s)| + 1..] else ""
  }

  lemma {:induction false} SplitAtDot(stem: string, rest: string)
    requires '.' !in stem && (rest == "" || rest[0] == '.')
    ensures Stem(stem + rest) == stem
    ensures rest != "" ==> Extension(stem + rest) == rest[1..]
  {
    var s := stem + rest;
    if stem != "" {
      assert s[0] == stem[0] && s[1..] == stem[1..] + rest;
      SplitAtDot(stem[1..], rest);
    }
    if rest != "" {
      assert HasDot(s) && s[|stem| + 1..] == rest[1..];
    }
  }

  predicate Ascii(s: string) { forall i | 0 <= i < |s| :: s[i] as int < 128 }

  predicate Low(bytes: seq<byte>) { forall i | 0 <= i < |bytes| :: bytes[i] < 128 }

  function AsciiBytes(s: string): (r: seq<byte>)
    requires Ascii(s)
    ensures |r| == |s| && Low(r)
  {
    seq<byte>(|s|, i requires 0 <= i < |s| && s[i] as int < 128 => s[i] as int)
  }

  function Spaces(n: nat): (r: string)
    ensures |r| == n && forall c <- r :: c == ' '
  {
    seq(n, _ => ' ')
  }

  function PadRight(s: string, width: nat): (r: string)
    ensures |r| == (if |s| < width then width else |s|) && s <= r && (Ascii(s) ==> Ascii(r))
  {
    s + Spaces(if |s| < width then width - |s| else 0)
  }

  // The eleven bytes of a directory entry's name, or why there are none.
  function DosName(name: string, casing: Casing): Result<NameField> {
    var upper := Upper(name, casing);
    if '/' in name || '\\' in name then Err(NotRootLevel)
    else if Stem(upper) == "" || |Stem(upper)| > 8 || |Extension(upper)| > 3 then Err(Not83)
    else if !Ascii(upper) then Err(NameNotAscii)
    else
      SubAscii(upper);
      var field: NameField := AsciiBytes(PadRight(Stem(upper), 8)) + AsciiBytes(PadRight(Extension(upper), 3));
      Ok(field)
  }

  lemma {:induction false} SubAscii(s: string)
    requires Ascii(s)
    ensures Ascii(Stem(s)) && Ascii(Extension(s))
  {
    forall i | 0 <= i < |Extension(s)| ensures Extension(s)[i] as int < 128 {
      assert Extension(s)[i] == s[|Stem(s)| + 1 + i];
    }
  }

  // A name consists of these two parts around its first dot.
  ghost predicate Parts(name: string, stem: string, extension: string) {
    '.' !in stem && (name == stem + "." + extension || (name == stem && extension == ""))
  }

  // A name is accepted exactly when it names no directory and, upper-cased, is ASCII with one
  // to eight characters before its first dot and at most three behind it.
  lemma {:induction false} NameAccepted(name: string, casing: Casing)
    ensures DosName(name, casing).Ok?
      <==> '/' !in name && '\\' !in name && Ascii(Upper(name, casing))
           && exists stem, extension :: Parts(Upper(name, casing), stem, extension)
                && 1 <= |stem| <= 8 && |extension| <= 3
  {
    var upper := Upper(name, casing);
    assert Parts(upper, Stem(upper), Extension(upper));
    forall stem, extension | Parts(upper, stem, extension)
      ensures Stem(upper) == stem && Extension(upper) == extension
    {
      PartsUnique(upper, stem, extension);
    }
  }

  lemma {:induction false} PartsUnique(upper: string, stem: string, extension: string)
    requires Parts(upper, stem, extension)
    ensures Stem(upper) == stem && Extension(upper) == extension
  {
    if upper == stem + "." + extension {
      assert upper == stem + ("." + extension) && ("." + extension)[1..] == extension;
      SplitAtDot(stem, "." + extension);
    } else {
      assert upper == stem + "";
      SplitAtDot(stem, "");
    }
  }

  // The field holds the one part, padded to eight characters, and the other, padded to three.
  lemma {:induction false} FieldFilled(name: string, casing: Casing, stem: string, extension: string, i: nat)
    requires DosName(name, casing).Ok? && Parts(Upper(name, casing), stem, extension) && i < 11
    ensures DosName(name, casing).value[i] as int
      == if i < 8 then (if i < |stem| then stem[i] as int else 0x20)
         else if i - 8 < |extension| then extension[i - 8] as int else 0x20
  {
    PartsUnique(Upper(name, casing), stem, extension);
    SubAscii(Upper(name, casing));
  }

  // ----- reading a name field

  function Text(bytes: seq<byte>): (s: string)
    requires Low(bytes)
    ensures |s| == |bytes|
  {
    seq(|bytes|, i requires 0 <= i < |bytes| && bytes[i] < 128 => bytes[i] as char)
  }

  function Trim(s: string): (r: string)
    ensures r <= s
    decreases |s|
  {
    if s != "" && s[|s| - 1] == ' ' then Trim(s[..|s| - 1]) else s
  }

  predicate Trimmed(s: string) { s == "" || s[|s| - 1] != ' ' }

  lemma {:induction false} TrimPadded(s: string, n: nat)
    requires Trimmed(s)
    ensures Trim(s + Spaces(n)) == s
    decreases n
  {
    if n > 0 {
      var t := s + Spaces(n);
      assert t[..|t| - 1] == s + Spaces(n - 1);
      TrimPadded(s, n - 1);
    } else {
      assert s + Spaces(n) == s;
    }
  }

  // How a system shows a name field: both parts without trailing spaces, and a dot
  // when there is an extension.
  function ShownName(field: seq<byte>): string
    requires |field| == 11 && Low(field)
  {
    Joined(Trim(Text(field[..8])), Trim(Text(field[8..])))
  }

  lemma {:induction false} TextOfAscii(s: string)
    requires Ascii(s)
    ensures Text(AsciiBytes(s)) == s
  {
  }

  function Joined(stem: string, extension: string): string {
    stem + (if extension == "" then "" else "." + extension)
  }

  lemma {:induction false} FieldShown(left: string, right: string)
    requires |left| == 8 && |right| == 3 && Ascii(left) && Ascii(right)
    ensures ShownName(AsciiBytes(left) + AsciiBytes(right)) == Joined(Trim(left), Trim(right))
  {
    var field := AsciiBytes(left) + AsciiBytes(right);
    assert field[..8] == AsciiBytes(left) && field[8..] == AsciiBytes(right);
    TextOfAscii(left);
    TextOfAscii(right);
  }

  // A file is found again under its upper-cased name exactly when that name neither
  // ends in the dot nor has a part ending in a space.
  lemma {:induction false} NameShown(name: string, casing: Casing)
    requires DosName(name, casing).Ok?
    ensures Low(DosName(name, casing).value)
    ensures var upper := Upper(name, casing);
      ShownName(DosName(name, casing).value) == upper
      <==> Trimmed(Stem(upper)) && Trimmed(Extension(upper)) && (HasDot(upper) ==> Extension(upper) != "")
  {
    var upper := Upper(name, casing);
    var stem, extension := Stem(upper), Extension(upper);
    SubAscii(upper);
    FieldShown(PadRight(stem, 8), PadRight(extension, 3));
    PartsJoined(upper, 8, 3);
  }

  lemma {:induction false} TrimPad(s: string, width: nat)
    requires Trimmed(s)
    ensures Trim(PadRight(s, width)) == s
  {
    TrimPadded(s, |PadRight(s, width)| - |s|);
  }

  lemma {:induction false} JoinedParts(upper: string)
    ensures Joined(Stem(upper), Extension(upper)) == upper <==> (HasDot(upper) ==> Extension(upper) != "")
  {
  }

  lemma {:induction false} PartsJoined(upper: string, m: nat, n: nat)
    ensures var stem, extension := Stem(upper), Extension(upper);
      Joined(Trim(PadRight(stem, m)), Trim(PadRight(extension, n))) == upper
      <==> Trimmed(stem) && Trimmed(extension) && (HasDot(upper) ==> extension != "")
  {
    var stem, extension := Stem(upper), Extension(upper);
    var left, right := PadRight(stem, m), PadRight(extension, n);
    if Trimmed(stem) && Trimmed(extension) {
      TrimPad(stem, m);
      TrimPad(extension, n);
      JoinedParts(upper);
    } else {
      TrimMeaning(left);
      TrimMeaning(right);
      assert '.' !in Trim(left);
      ShownDiffers(upper, Trim(left), Trim(right));
    }
  }

  lemma {:induction false} TrimMeaning(s: string)
    ensures Trimmed(Trim(s)) && Trim(s) <= s
    decreases |s|
  {
    if s != "" && s[|s| - 1] == ' ' {
      TrimMeaning(s[..|s| - 1]);
    }
  }

  lemma {:induction false} ShownDiffers(upper: string, stem: string, extension: string)
    requires !Trimmed(Stem(upper)) || !Trimmed(Extension(upper))
    requires Trimmed(stem) && Trimmed(extension) && '.' !in stem
    ensures upper != Joined(stem, extension)
  {
    var rest := if extension == "" then "" else "." + extension;
    SplitAtDot(stem, rest);
    if extension == "" {
      assert stem + rest == stem;
      SplitAtDot(stem, "");
    }
  }

  // ----- names of compressed files

  // The name a compressed file is stored under, and the code of the character replaced
  // by the final underscore.
  function CompressedName(destination: string, casing: Casing): (r: Result<(string, int)>)
    ensures r.Ok? ==> |r.value.0| > 0 && r.value.0[|r.value.0| - 1] == '_'
    ensures r.Err? <==> Upper(destination, casing) == "" || Upper(destination, casing) == "."
  {
    var upper := Upper(destination, casing);
    var stem, extension := Stem(upper), Extension(upper);
    if HasDot(upper) && extension != "" then
      Ok((stem + "." + (extension[..|extension| - 1] + "_"), extension[|extension| - 1] as int))
    else if stem == "" then
      assert upper == "" || (|upper| == 1 && upper[0] == '.');
      Err(EmptyName)
    else Ok((stem[..|stem| - 1] + "_", stem[|stem| - 1] as int))
  }

  // The text without a dot at its end, if that is its only one.
  function WithoutDot(s: string): string {
    if s != "" && s[|s| - 1] == '.' && '.' !in s[..|s| - 1] then s[..|s| - 1] else s
  }

  // The stored name is the upper-cased destination without a dot at its end, the last
  // character of it replaced by an underscore; that character is the one that is missing.
  lemma {:induction false} LastReplaced(destination: string, casing: Casing)
    ensures var kept := WithoutDot(Upper(destination, casing));
      CompressedName(destination, casing)
      == if kept == "" then Err(EmptyName) else Ok((kept[..|kept| - 1] + "_", kept[|kept| - 1] as int))
  {
    var upper := Upper(destination, casing);
    var stem, extension := Stem(upper), Extension(upper);
    if HasDot(upper) && extension != "" {
      EndsInExtension(upper, stem, extension);
    } else if HasDot(upper) {
      EndsInDot(upper, stem);
    } else {
      assert upper == stem;
    }
  }

  lemma {:induction false} EndsInExtension(s: string, stem: string, extension: string)
    requires s == stem + "." + extension && extension != ""
    ensures WithoutDot(s) == s && s[|s| - 1] == extension[|extension| - 1]
    ensures s[..|s| - 1] + "_" == stem + "." + (extension[..|extension| - 1] + "_")
  {
    assert s[..|s| - 1][|stem|] == '.';
    assert s[..|s| - 1] == stem + "." + extension[..|extension| - 1];
  }

  lemma {:induction false} EndsInDot(s: string, stem: string)
    requires s == stem + "." && '.' !in stem
    ensures WithoutDot(s) == stem
  {
    assert s[..|s| - 1] == stem;
  }

  // The installed name: the missing character put in place of the underscore.
  function Restored(stored: string, missing: byte): string
    requires stored != ""
  {
    stored[..|stored| - 1] + [missing as char]
  }

  // The stored name and the missing character give back the destination exactly when
  // the destination does not end in its first dot.
  lemma {:induction false} NameRestored(destination: string, casing: Casing)
    requires CompressedName(destination, casing).Ok? && 0 <= CompressedName(destination, casing).value.1 < 256
    ensures var (stored, missing) := CompressedName(destination, casing).value; var upper := Upper(destination, casing);
      Restored(stored, missing as byte) == upper <==> !(HasDot(upper) && Extension(upper) == "")
  {
    var (stored, missing) := CompressedName(destination, casing).value;
    RestoredUpper(Upper(destination, casing), stored, missing as byte);
  }

  // The stored name of an upper-cased destination.
  ghost predicate StoredFor(upper: string, stored: string, missing: byte) {
    var stem, extension := Stem(upper), Extension(upper);
    if HasDot(upper) && extension != "" then
      stored == stem + "." + (extension[..|extension| - 1] + "_") && missing as char == extension[|extension| - 1]
    else stem != "" && stored == stem[..|stem| - 1] + "_" && missing as char == stem[|stem| - 1]
  }

  lemma {:induction false} RestoredUpper(upper: string, stored: string, missing: byte)
    requires StoredFor(upper, stored, missing)
    ensures Restored(stored, missing) == upper <==> !(HasDot(upper) && Extension(upper) == "")
  {
    var stem, extension := Stem(upper), Extension(upper);
    if HasDot(upper) && extension != "" {
      assert stored[..|stored| - 1] == stem + "." + extension[..|extension| - 1];
      assert Restored(stored, missing) == stem + "." + extension;
      assert upper == stem + "." + extension;
    } else {
      assert Restored(stored, missing) == stem;
    }
  }

  // A destination that ends in its first dot does not come back.
  lemma {:induction false} DotLost(casing: Casing)
    requires Fixed("README.", casing)
    ensures CompressedName("README.", casing) == Ok(("READM_", 'E' as int))
    ensures Restored("READM_", 'E' as int) != Upper("README.", casing)
  {
    UpperFixed("README.", casing);
    SplitAtDot("README", ".");
    assert "README" + "." == "README.";
    assert "README"[..5] + "_" == "READM_";
  }

  // ----- the name a disk shows for a compressed file

  lemma {:induction false} StoredFixed(upper: string, stored: string, missing: byte, casing: Casing)
    requires StoredFor(upper, stored, missing) && Fixed(upper, casing) && Fixed("._", casing)
    ensures Upper(stored, casing) == stored
  {
    assert casing("._"[0]) == "." && casing("._"[1]) == "_";
    assert forall i | 0 <= i < |stored| - 1 :: stored[i] == upper[i];
    UpperFixed(stored, casing);
  }

  // The parts of a stored name.
  lemma {:induction false} StoredParts(upper: string, stored: string, missing: byte)
    requires StoredFor(upper, stored, missing)
    ensures var stem, extension := Stem(upper), Extension(upper);
      if HasDot(upper) && extension != "" then
        Stem(stored) == stem && Extension(stored) == extension[..|extension| - 1] + "_"
      else Stem(stored) == stored && Extension(stored) == ""
  {
    var stem, extension := Stem(upper), Extension(upper);
    if HasDot(upper) && extension != "" {
      var rest := "." + (extension[..|extension| - 1] + "_");
      assert stored == stem + rest;
      SplitAtDot(stem, rest);
      assert rest[1..] == extension[..|extension| - 1] + "_";
    } else {
      assert '.' !in stored;
      assert stored + "" == stored;
      SplitAtDot(stored, "");
    }
  }

  lemma {:induction false} TrimShortens(s: string, width: nat)
    ensures Trim(PadRight(s, width)) == s <==> Trimmed(s)
  {
    TrimMeaning(PadRight(s, width));
    if Trimmed(s) {
      TrimPad(s, width);
    }
  }

  // What the disk shows, with the missing character put back, is the upper-cased
  // destination exactly when that has no dot, or an extension behind it and no space before.
  lemma {:induction false} ShownRestored(upper: string, stored: string, missing: byte, m: nat, n: nat)
    requires StoredFor(upper, stored, missing)
    ensures var shown := Joined(Trim(PadRight(Stem(stored), m)), Trim(PadRight(Extension(stored), n)));
      shown != ""
      && (Restored(shown, missing) == upper <==> (HasDot(upper) ==> Extension(upper) != "" && Trimmed(Stem(upper))))
  {
    var stem, extension := Stem(upper), Extension(upper);
    StoredParts(upper, stored, missing);
    if HasDot(upper) && extension != "" {
      TrimShortens(stem, m);
      ExtensionShown(extension, n);
      FrontRestored(stem, extension, Trim(PadRight(stem, m)), missing);
      assert upper == stem + "." + extension;
    } else {
      TrimShortens(stored, m);
      TrimShortens("", n);
      WholeRestored(upper, stored, missing);
    }
  }

  // An extension that ends in an underscore is shown as it is.
  lemma {:induction false} ExtensionShown(extension: string, n: nat)
    requires extension != ""
    ensures var e := extension[..|extension| - 1] + "_"; Trim(PadRight(e, n)) == e
  {
    TrimShortens(extension[..|extension| - 1] + "_", n);
  }

  // Without an extension the whole stored name is shown, the underscore at its end.
  lemma {:induction false} WholeRestored(upper: string, stored: string, missing: byte)
    requires StoredFor(upper, stored, missing) && !(HasDot(upper) && Extension(upper) != "")
    ensures Trimmed(stored) && Trimmed("") && Joined(stored, "") == stored && stored != ""
    ensures Restored(stored, missing) == upper <==> !HasDot(upper)
  {
    RestoredUpper(upper, stored, missing);
  }

  lemma {:induction false} FrontRestored(stem: string, extension: string, front: string, missing: byte)
    requires extension != "" && missing as char == extension[|extension| - 1]
    ensures var e := extension[..|extension| - 1] + "_";
      Trimmed(e) && Joined(front, e) != ""
      && (Restored(Joined(front, e), missing) == stem + "." + extension <==> front == stem)
  {
    var tail := "." + extension;
    PutBack(front, extension, missing);
    assert front + "." + extension == front + tail && stem + "." + extension == stem + tail;
    SameFront(front, stem, tail);
  }

  lemma {:induction false} SameFront(a: string, b: string, tail: string)
    ensures a + tail == b + tail <==> a == b
  {
    assert (a + tail)[..|a|] == a && (b + tail)[..|b|] == b;
    assert |a + tail| == |a| + |tail| && |b + tail| == |b| + |tail|;
  }

  lemma {:induction false} PutBack(front: string, extension: string, missing: byte)
    requires extension != "" && missing as char == extension[|extension| - 1]
    ensures Restored(front + "." + (extension[..|extension| - 1] + "_"), missing) == front + "." + extension
  {
    var s := front + "." + (extension[..|extension| - 1] + "_");
    assert s[..|s| - 1] == front + "." + extension[..|extension| - 1];
  }

  lemma {:induction false} StoredNameShown(destination: string, casing: Casing)
    requires Uppercases(casing) && CompressedName(destination, casing).Ok?
    requires var (stored, missing) := CompressedName(destination, casing).value;
      0 <= missing < 256 && DosName(stored, casing).Ok?
    ensures var (stored, missing) := CompressedName(destination, casing).value; var upper := Upper(destination, casing);
      var field := DosName(stored, casing).value;
      Low(field) && ShownName(field) != ""
      && (Restored(ShownName(field), missing as byte) == upper
          <==> (HasDot(upper) ==> Extension(upper) != "" && Trimmed(Stem(upper))))
  {
    var (stored, missing) := CompressedName(destination, casing).value;
    var upper := Upper(destination, casing);
    UpperIsFixed(destination, casing);
    StoredFixed(upper, stored, missing as byte, casing);
    FieldOfFixed(stored, casing);
    ShownRestored(upper, stored, missing as byte, 8, 3);
  }

  // An upper-case destination with an extension, and the name it is stored under.
  ghost predicate StoredAs(stem: string, extension: string, destination: string, stored: string) {
    extension != "" && destination == stem + ("." + extension)
    && stored == stem + ("." + (extension[..|extension| - 1] + "_"))
  }

  lemma {:induction false} CompressedAs(stem: string, extension: string, destination: string, stored: string,
                                        casing: Casing)
    requires StoredAs(stem, extension, destination, stored) && '.' !in stem && Fixed(destination, casing)
    ensures Upper(destination, casing) == destination && HasDot(destination)
    ensures Stem(destination) == stem && Extension(destination) == extension
    ensures CompressedName(destination, casing) == Ok((stored, extension[|extension| - 1] as int))
  {
    UpperFixed(destination, casing);
    SplitAtDot(stem, "." + extension);
    assert stored == stem + "." + (extension[..|extension| - 1] + "_");
  }

  lemma {:induction false} StoredOk(stem: string, extension: string, destination: string, stored: string,
                                    casing: Casing)
    requires StoredAs(stem, extension, destination, stored) && '.' !in stem && Fixed(destination, casing)
    requires Uppercases(casing) && 0 < |stem| <= 8 && |extension| <= 3 && AllowedIn(destination)
    ensures DosName(stored, casing).Ok?
  {
    CompressedAs(stem, extension, destination, stored, casing);
    var missing := extension[|extension| - 1];
    assert missing == destination[|destination| - 1];
    StoredFixed(destination, stored, missing as byte, casing);
    StoredParts(destination, stored, missing as byte);
    StoredAllowed(stem, extension, destination, stored);
    FieldOk(stored, casing);
  }

  ghost predicate AllowedIn(s: string) {
    forall i | 0 <= i < |s| :: s[i] as int < 128 && s[i] != '/' && s[i] != '\\'
  }

  lemma {:induction false} StoredAllowed(stem: string, extension: string, destination: string, stored: string)
    requires StoredAs(stem, extension, destination, stored) && AllowedIn(destination)
    ensures AllowedIn(stored)
  {
    assert forall i | 0 <= i < |stored| - 1 :: stored[i] == destination[i];
  }

  lemma {:induction false} FieldOk(name: string, casing: Casing)
    requires Upper(name, casing) == name && AllowedIn(name)
    requires 0 < |Stem(name)| <= 8 && |Extension(name)| <= 3
    ensures DosName(name, casing).Ok?
  {
  }

  // A destination with a space before its dot is stored, but what the disk shows does not
  // give it back.
  lemma {:induction false} SpaceLost(destination: string, stored: string, casing: Casing)
    requires destination == "A .TXT" && stored == "A .TX_" && Uppercases(casing) && Fixed(destination, casing)
    ensures CompressedName(destination, casing) == Ok((stored, 'T' as int)) && DosName(stored, casing).Ok?
    ensures var field := DosName(stored, casing).value;
      Low(field) && ShownName(field) != "" && Restored(ShownName(field), 'T' as byte) != Upper(destination, casing)
  {
    var stem, extension := "A ", "TXT";
    SpaceParts(stem, extension, destination, stored);
    CompressedAs(stem, extension, destination, stored, casing);
    StoredOk(stem, extension, destination, stored, casing);
    StoredNameShown(destination, casing);
  }

  lemma {:induction false} SpaceParts(stem: string, extension: string, destination: string, stored: string)
    requires stem == "A " && extension == "TXT" && destination == "A .TXT" && stored == "A .TX_"
    ensures StoredAs(stem, extension, destination, stored) && '.' !in stem && !Trimmed(stem) && AllowedIn(destination)
  {
  }

  lemma {:induction false} FieldOfFixed(name: string, casing: Casing)
    requires Upper(name, casing) == name && DosName(name, casing).Ok?
    ensures var field := DosName(name, casing).value;
      Low(field) && ShownName(field) == Joined(Trim(PadRight(Stem(name), 8)), Trim(PadRight(Extension(name), 3)))
  {
    SubAscii(name);
    FieldShown(PadRight(Stem(name), 8), PadRight(Extension(name), 3));
  }
}
