/** The resume scan `get_next_image_index` of downloader.py: the directory
    listing is given as a sequence of names, and the result is one more than
    the largest index already used by an image file, or 0 when there is none. */
module ResumeIndex {
  import opened PyText

  /** `f.endswith('.jpg')` */
  predicate IsJpg(f: string)
  {
    |f| >= 4 && f[|f| - 4..] == ".jpg"
  }

  /** `f.split('_')[-1].split('.')[0]`: the text after the last '_' and
      before the first '.' that follows it. */
  function IndexText(f: string): string
  {
    BeforeFirst(AfterLast(f, '_'), '.')
  }

  /** An image whose index text is a decimal numeral. */
  predicate HasIndex(f: string)
  {
    IsJpg(f) && IsDigits(IndexText(f))
  }

  function IndexOf(f: string): nat
    requires HasIndex(f)
  {
    DigitsValue(IndexText(f))
  }

  /** `existing_files`: the names that end in ".jpg", in listing order. */
  function JpgFiles(names: seq<string>): (r: seq<string>)
    ensures forall f :: f in r <==> f in names && IsJpg(f)
  {
    if names == [] then []
    else
      var rest := JpgFiles(names[1..]);
      assert forall f :: f in names <==> f == names[0] || f in names[1..];
      if IsJpg(names[0]) then [names[0]] + rest else rest
  }

  /** `indices`: the values of the index texts that are numerals. */
  function Indices(files: seq<string>): (r: seq<nat>)
    ensures forall v :: v in r <==> exists f :: f in files && HasIndex(f) && IndexOf(f) == v
  {
    if files == [] then []
    else
      var rest := Indices(files[1..]);
      assert forall f :: f in files <==> f == files[0] || f in files[1..];
      if HasIndex(files[0]) then [IndexOf(files[0])] + rest else rest
  }

  /** `max(s)` */
  function Max(s: seq<nat>): (m: nat)
    requires s != []
    ensures m in s
    ensures forall v :: v in s ==> v <= m
  {
    if |s| == 1 then s[0]
    else
      var t := Max(s[1..]);
      assert forall v :: v in s <==> v == s[0] || v in s[1..];
      if s[0] >= t then s[0] else t
  }

  /** `get_next_image_index`: strictly above every index in use, equal to the
      largest one plus one, and 0 exactly when no image carries an index. */
  function NextImageIndex(names: seq<string>): (r: nat)
    ensures forall f :: f in names && HasIndex(f) ==> IndexOf(f) < r
    ensures r == 0 <==> forall f :: f in names ==> !HasIndex(f)
    ensures r > 0 ==> exists f :: f in names && HasIndex(f) && IndexOf(f) == r - 1
  {
    var existing := JpgFiles(names);
    if existing == [] then
      assert forall f :: f in names ==> !HasIndex(f) by { IndicesCoverNames(names, existing); }
      0
    else
      var indices := Indices(existing);
      IndicesCoverNames(names, existing);
      if indices == [] then 0
      else
        MaxIsUsed(names, existing, indices);
        Max(indices) + 1
  }

  lemma IndicesCoverNames(names: seq<string>, existing: seq<string>)
    requires existing == JpgFiles(names)
    ensures forall f :: f in names && HasIndex(f) ==> f in existing && IndexOf(f) in Indices(existing)
  {
    forall f | f in names && HasIndex(f)
      ensures f in existing && IndexOf(f) in Indices(existing)
    {
      assert f in existing;
    }
  }

  lemma MaxIsUsed(names: seq<string>, existing: seq<string>, indices: seq<nat>)
    requires existing == JpgFiles(names) && indices == Indices(existing) && indices != []
    ensures exists f :: f in names && HasIndex(f) && IndexOf(f) == Max(indices)
  {
    var m := Max(indices);
    assert m in indices;
    assert exists f :: f in existing && HasIndex(f) && IndexOf(f) == m;
    var f :| f in existing && HasIndex(f) && IndexOf(f) == m;
    assert f in names;
  }

  /** With no ".jpg" name in the listing the scan starts from 0. */
  lemma NoImagesStartAtZero(names: seq<string>)
    requires forall f :: f in names ==> !IsJpg(f)
    ensures NextImageIndex(names) == 0
  {
    assert forall f :: f in names ==> !HasIndex(f);
  }

  lemma AfterLastOfNumbered(prefix: string, digits: string)
    requires '_' !in digits
    ensures AfterLast(prefix + "_" + digits + ".jpg", '_') == digits + ".jpg"
  {
    var tail := digits + ".jpg";
    assert '_' !in tail by {
      assert forall i :: 0 <= i < |tail| ==> tail[i] == (if i < |digits| then digits[i] else ".jpg"[i - |digits|]);
    }
    assert prefix + "_" + digits + ".jpg" == prefix + ['_'] + tail;
    AfterLastJoin(prefix, '_', tail);
  }

  lemma BeforeFirstOfNumbered(digits: string)
    requires '.' !in digits
    ensures BeforeFirst(digits + ".jpg", '.') == digits
  {
    assert digits + ".jpg" == digits + ['.'] + "jpg";
    BeforeFirstJoin(digits, '.', "jpg");
  }

  /** The index text of `prefix + "_" + digits + ".jpg"`, when the digits hold
      no '_' or '.', is the digits. */
  lemma IndexTextOfNumbered(prefix: string, digits: string)
    requires '_' !in digits && '.' !in digits
    ensures IndexText(prefix + "_" + digits + ".jpg") == digits
  {
    AfterLastOfNumbered(prefix, digits);
    BeforeFirstOfNumbered(digits);
  }

  /** For a name built as `prefix + "_" + digits + ".jpg"`, the index read
      back is the value of the digits. */
  lemma IndexOfNumbered(prefix: string, digits: string)
    requires IsDigits(digits)
    ensures HasIndex(prefix + "_" + digits + ".jpg")
    ensures IndexOf(prefix + "_" + digits + ".jpg") == DigitsValue(digits)
  {
    var f := prefix + "_" + digits + ".jpg";
    assert !IsDigit('_') && !IsDigit('.');
    IndexTextOfNumbered(prefix, digits);
    assert f[|f| - 4..] == ".jpg";
  }

  /** A gap in the numbering is not filled, and names with a non-numeric index
      or another extension are ignored: "X_0.jpg" and "X_2.jpg" give 3. */
  lemma GapIsNotFilled(a: string, b: string, c: string, d: string)
    requires HasIndex(a) && IndexOf(a) == 0
    requires !HasIndex(b) && !HasIndex(c)
    requires HasIndex(d) && IndexOf(d) == 2
    ensures NextImageIndex([a, b, c, d]) == 3
  {
    var names := [a, b, c, d];
    assert d in names;
    forall f | f in names && HasIndex(f) ensures IndexOf(f) <= 2 {
      assert f == a || f == b || f == c || f == d;
    }
    NextIsLargestPlusOne(names, 2);
  }

  /** The listing "X_0.jpg", "notes.txt", "X_final.jpg", "X_2.jpg" resumes at 3. */
  lemma GapExample()
    ensures NextImageIndex(["X_0.jpg", "notes.txt", "X_final.jpg", "X_2.jpg"]) == 3
  {
    ExampleZero();
    ExampleTwo();
    NotesIgnored();
    FinalIgnored();
    GapIsNotFilled("X_0.jpg", "notes.txt", "X_final.jpg", "X_2.jpg");
  }

  lemma ExampleZero()
    ensures HasIndex("X_0.jpg") && IndexOf("X_0.jpg") == 0
  {
    UsedIndex("X", "0");
    assert "X" + "_" + "0" + ".jpg" == "X_0.jpg";
  }

  lemma ExampleTwo()
    ensures HasIndex("X_2.jpg") && IndexOf("X_2.jpg") == 2
  {
    UsedIndex("X", "2");
    assert "X" + "_" + "2" + ".jpg" == "X_2.jpg";
  }

  lemma NotesIgnored()
    ensures !HasIndex("notes.txt")
  {
    assert "notes.txt"[5..] != ".jpg";
  }

  lemma FinalIgnored()
    ensures !HasIndex("X_final.jpg")
  {
    IndexTextOfNumbered("X", "final");
    assert "X" + "_" + "final" + ".jpg" == "X_final.jpg";
    assert !IsDigit("final"[0]);
  }

  /** When the largest index in use is `m`, the scan gives `m + 1`. */
  lemma NextIsLargestPlusOne(names: seq<string>, m: nat)
    requires exists f :: f in names && HasIndex(f) && IndexOf(f) == m
    requires forall f :: f in names && HasIndex(f) ==> IndexOf(f) <= m
    ensures NextImageIndex(names) == m + 1
  {
    var r := NextImageIndex(names);
    var g :| g in names && HasIndex(g) && IndexOf(g) == r - 1;
  }

  lemma UsedIndex(prefix: string, digits: string)
    requires IsDigits(digits) && |digits| == 1
    ensures HasIndex(prefix + "_" + digits + ".jpg")
    ensures IndexOf(prefix + "_" + digits + ".jpg") == DigitValue(digits[0])
  {
    IndexOfNumbered(prefix, digits);
    assert digits[..0] == [];
  }
}
