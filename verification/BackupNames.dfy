/** Names of remote objects and keys of parts as text: what they say of a part, and what is read back. */
module BackupNames {
  import opened Options
  import opened BackupParts

  const U64 := 0x1_0000_0000_0000_0000

  /** The three sizes of a name fit 64 bits. */
  predicate Fits(p: Part) {
    p.fileSize < U64 && p.offset < U64 && p.size < U64
  }

  // ----- hexadecimal fields

  function HexChar(d: int): char
    requires 0 <= d < 16
  {
    "0123456789ABCDEF"[d]
  }

  /** `k` upper-case digits of `n`, the most significant first. */
  function HexDigits(n: nat, k: nat): (h: string)
    ensures |h| == k && Upper(h)
    decreases k
  {
    if k == 0 then "" else HexDigits(n / 16, k - 1) + [HexChar(n % 16)]
  }

  predicate UpperDigit(c: char) {
    '0' <= c <= '9' || 'A' <= c <= 'F'
  }

  predicate Upper(s: string) {
    forall i :: 0 <= i < |s| ==> UpperDigit(s[i])
  }

  /** The field `{:016X}`. */
  function Padded(n: nat): string
    requires n < U64
  {
    HexDigits(n, 16)
  }

  /** The digit's value in either case, or -1. */
  function DigitValue(c: char): (d: int)
    ensures -1 <= d < 16
  {
    if '0' <= c <= '9' then c as int - '0' as int
    else if 'A' <= c <= 'F' then c as int - 'A' as int + 10
    else if 'a' <= c <= 'f' then c as int - 'a' as int + 10
    else -1
  }

  predicate AllDigits(s: string) {
    forall i :: 0 <= i < |s| ==> DigitValue(s[i]) >= 0
  }

  function Value(s: string): nat
    requires AllDigits(s)
  {
    if s == "" then 0 else Value(s[..|s| - 1]) * 16 + DigitValue(s[|s| - 1])
  }

  /** One leading plus sign is accepted and ignored. */
  function Unsigned(s: string): string {
    if s != "" && s[0] == '+' then s[1..] else s
  }

  /** `u64::from_str_radix(s, 16)`. */
  function ParseHex(s: string): Option<nat> {
    var t := Unsigned(s);
    if t == "" || !AllDigits(t) then None
    else if Value(t) >= U64 then None
    else Some(Value(t))
  }

  function Pow16(k: nat): nat {
    if k == 0 then 1 else 16 * Pow16(k - 1)
  }

  lemma {:induction false} DigitsValue(n: nat, k: nat)
    requires n < Pow16(k)
    ensures AllDigits(HexDigits(n, k)) && Value(HexDigits(n, k)) == n
    decreases k
  {
    if k > 0 {
      DigitsValue(n / 16, k - 1);
      var h := HexDigits(n, k);
      assert h[..k - 1] == HexDigits(n / 16, k - 1);
      assert DigitValue(HexChar(n % 16)) == n % 16;
      assert h[k - 1] == HexChar(n % 16);
    }
  }

  lemma {:induction false} ValueBelow(s: string)
    requires AllDigits(s)
    ensures Value(s) < Pow16(|s|)
    decreases |s|
  {
    if s != "" {
      ValueBelow(s[..|s| - 1]);
    }
  }

  /** Upper-case digits are the digits of their value. */
  lemma {:induction false} ValueDigits(s: string)
    requires Upper(s)
    ensures AllDigits(s) && HexDigits(Value(s), |s|) == s
    decreases |s|
  {
    if s != "" {
      var front, c := s[..|s| - 1], s[|s| - 1];
      ValueDigits(front);
      assert Value(s) / 16 == Value(front) && Value(s) % 16 == DigitValue(c);
      assert HexChar(DigitValue(c)) == c;
      assert s == front + [c];
    }
  }

  lemma SixteenDigits()
    ensures Pow16(16) == U64
  {
    assert Pow16(4) == 0x1_0000;
    assert Pow16(8) == 0x1_0000_0000;
    assert Pow16(12) == 0x1_0000_0000_0000;
  }

  /** Sixteen digits, or a plus sign and fifteen. */
  predicate IsField(f: string) {
    |f| == 16 && AllDigits(Unsigned(f))
  }

  /** A field of sixteen characters is read exactly when it is one; it is the padded form of its value when upper-case. */
  lemma FieldRead(f: string)
    requires |f| == 16
    ensures ParseHex(f).Some? <==> IsField(f)
    ensures IsField(f) ==> ParseHex(f).value < U64
    ensures IsField(f) ==> (Padded(ParseHex(f).value) == f <==> Upper(f))
  {
    var t := Unsigned(f);
    if AllDigits(t) {
      ValueBelow(t);
      SixteenDigits();
      assert Pow16(16) == 16 * Pow16(15);
      if Upper(f) {
        assert t == f;
        ValueDigits(f);
      }
    }
  }

  lemma PaddedRead(n: nat)
    requires n < U64
    ensures ParseHex(Padded(n)) == Some(n) && IsField(Padded(n)) && Upper(Padded(n))
  {
    SixteenDigits();
    DigitsValue(n, 16);
    var f := Padded(n);
    assert f[0] != '+';
    assert Unsigned(f) == f;
  }

  // ----- splitting

  ghost predicate Without(s: string, c: char) {
    forall i :: 0 <= i < |s| ==> s[i] != c
  }

  /** The first `c` in `s`, or the length. */
  function First(s: string, c: char): (k: nat)
    ensures k <= |s| && (k < |s| ==> s[k] == c) && Without(s[..k], c)
  {
    if s == "" || s[0] == c then 0
    else
      var k := First(s[1..], c) + 1;
      assert s[..k] == [s[0]] + s[1..][..k - 1];
      k
  }

  /** The last slash of `s`, or -1. */
  function LastSlash(s: string): (k: int)
    ensures -1 <= k < |s| && (k >= 0 ==> s[k] == '/')
  {
    if s == "" then -1 else if s[|s| - 1] == '/' then |s| - 1 else LastSlash(s[..|s| - 1])
  }

  /** `name.split('_')`. */
  function Fields(s: string): (fs: seq<string>)
    ensures |fs| >= 1
    decreases |s|
  {
    var k := First(s, '_');
    if k == |s| then [s] else [s[..k]] + Fields(s[k + 1..])
  }

  lemma FirstOf(a: string, c: char, b: string)
    requires Without(a, c)
    ensures First(a + [c] + b, c) == |a| && First(a, c) == |a|
  {
    var s := a + [c] + b;
    assert s[|a|] == c && forall i :: 0 <= i < |a| ==> s[i] == a[i];
  }

  lemma FieldsStep(a: string, b: string)
    requires Without(a, '_')
    ensures Fields(a + "_" + b) == [a] + Fields(b) && Fields(a) == [a]
  {
    FirstOf(a, '_', b);
    var s := a + "_" + b;
    assert s[..|a|] == a && s[|a| + 1..] == b;
  }

  lemma FieldsFirst(s: string)
    ensures Without(Fields(s)[0], '_')
    ensures |Fields(s)| == 1 ==> Fields(s)[0] == s
    ensures |Fields(s)| > 1 ==> exists b :: s == Fields(s)[0] + "_" + b && Fields(s)[1..] == Fields(b)
  {
    var k := First(s, '_');
    if k < |s| {
      assert s == s[..k] + "_" + s[k + 1..];
      assert Fields(s)[1..] == Fields(s[k + 1..]);
    } else {
      assert s[..k] == s;
    }
  }

  /** Three fields are joined by two underscores, and only that way. */
  lemma FieldsThree(s: string)
    ensures |Fields(s)| == 3 ==> s == Named(Fields(s)[0], Fields(s)[1], Fields(s)[2])
  {
    if |Fields(s)| == 3 {
      FieldsFirst(s);
      var b :| s == Fields(s)[0] + "_" + b && Fields(s)[1..] == Fields(b);
      FieldsFirst(b);
      var c :| b == Fields(b)[0] + "_" + c && Fields(b)[1..] == Fields(c);
      FieldsFirst(c);
    }
  }

  function Named(a: string, b: string, c: string): string {
    a + "_" + (b + "_" + c)
  }

  lemma FieldPlain(f: string)
    requires IsField(f)
    ensures Without(f, '_') && Without(f, '/')
  {
    forall i | 0 <= i < |f| ensures f[i] != '_' && f[i] != '/' {
      assert f[0] == '+' && i > 0 ==> Unsigned(f)[i - 1] == f[i];
    }
  }

  lemma NamedFields(a: string, b: string, c: string)
    requires IsField(a) && IsField(b) && IsField(c)
    ensures Fields(Named(a, b, c)) == [a, b, c] && Without(Named(a, b, c), '/') && |Named(a, b, c)| == 50
  {
    FieldPlain(a);
    FieldPlain(b);
    FieldPlain(c);
    assert Without(Named(a, b, c), '/');
    hide Fields, Without, AllDigits;
    FieldsStep(a, b + "_" + c);
    FieldsStep(b, c);
    FieldsStep(c, "");
  }

  lemma {:induction false} LastSlashOf(path: string, name: string)
    requires Without(name, '/')
    ensures LastSlash(path + "/" + name) == |path|
    decreases |name|
  {
    var s := path + "/" + name;
    if name != "" {
      LastSlashOf(path, name[..|name| - 1]);
      assert s[..|s| - 1] == path + "/" + name[..|name| - 1];
      assert s[|s| - 1] == name[|name| - 1];
    }
  }

  // ----- names of remote objects

  function TrimSlashes(s: string): (t: string)
    ensures t == "" || t[|t| - 1] != '/'
  {
    if s != "" && s[|s| - 1] == '/' then TrimSlashes(s[..|s| - 1]) else s
  }

  /** What is put before the path. */
  function Before(prefix: string): string {
    var t := TrimSlashes(prefix);
    if t == "" then "" else t + "/"
  }

  /** The name under the prefix. */
  function Relative(p: Part): string
    requires Fits(p)
  {
    p.path + "/" + Named(Padded(p.fileSize), Padded(p.offset), Padded(p.size))
  }

  /** `Part::remote_path`. */
  function RemotePath(p: Part, prefix: string): string
    requires Fits(p)
  {
    Before(prefix) + Relative(p)
  }

  function Slashes(n: nat): string {
    seq(n, _ => '/')
  }

  lemma {:induction false} Trimmed(t: string, n: nat)
    requires t == "" || t[|t| - 1] != '/'
    ensures TrimSlashes(t + Slashes(n)) == t
  {
    var s := t + Slashes(n);
    if n == 0 {
      assert s == t;
    } else {
      assert s[|s| - 1] == '/';
      assert s[..|s| - 1] == t + Slashes(n - 1);
      Trimmed(t, n - 1);
    }
  }

  /**
   * The text of a name: the prefix without the slashes at its end and one slash, the path, a slash, and the file
   * size, the offset and the size in sixteen digits each, joined by underscores.
   */
  lemma NameSpelled(p: Part, t: string, n: nat) returns (a: string, b: string, c: string)
    requires Fits(p) && (t == "" || t[|t| - 1] != '/')
    ensures |a| == |b| == |c| == 16 && Upper(a) && Upper(b) && Upper(c) && AllDigits(a) && AllDigits(b) && AllDigits(c)
    ensures Value(a) == p.fileSize && Value(b) == p.offset && Value(c) == p.size
    ensures RemotePath(p, t + Slashes(n)) == (if t == "" then "" else t + "/") + p.path + "/" + a + "_" + b + "_" + c
  {
    a, b, c := Padded(p.fileSize), Padded(p.offset), Padded(p.size);
    PaddedText(p.fileSize);
    PaddedText(p.offset);
    PaddedText(p.size);
    Trimmed(t, n);
    assert RemotePath(p, t + Slashes(n)) == (if t == "" then "" else t + "/") + (p.path + "/" + (a + "_" + (b + "_" + c))) by {
      hide Padded, TrimSlashes, Slashes;
    }
    hide *;
    Regrouped(if t == "" then "" else t + "/", p.path, a, b, c);
  }

  lemma PaddedText(n: nat)
    requires n < U64
    ensures |Padded(n)| == 16 && Upper(Padded(n)) && AllDigits(Padded(n)) && Value(Padded(n)) == n
  {
    SixteenDigits();
    DigitsValue(n, 16);
  }

  lemma Regrouped(front: string, path: string, a: string, b: string, c: string)
    ensures front + (path + "/" + (a + "_" + (b + "_" + c))) == front + path + "/" + a + "_" + b + "_" + c
  {
  }

  /** `Part::parse_from_remote_path`. */
  function ParseName(remote: string, actualSize: nat): Option<Part> {
    var i := LastSlash(remote);
    if i < 0 then None else ParseFields(remote[..i], Fields(remote[i + 1..]), actualSize)
  }

  function ParseFields(path: string, fields: seq<string>, actualSize: nat): Option<Part> {
    if path == "" || |fields| != 3 || |fields[0]| != 16 || |fields[1]| != 16 || |fields[2]| != 16 then None
    else
      var a, b, c := ParseHex(fields[0]), ParseHex(fields[1]), ParseHex(fields[2]);
      if a == None || b == None || c == None then None
      else Some(Part(path, a.value, b.value, c.value, actualSize))
  }

  /** `s` is a path, a slash and three fields. */
  ghost predicate Spells(s: string, path: string, a: string, b: string, c: string) {
    path != "" && IsField(a) && IsField(b) && IsField(c) && s == path + "/" + Named(a, b, c)
  }

  lemma SpelledRead(s: string, path: string, a: string, b: string, c: string, actualSize: nat)
    requires Spells(s, path, a, b, c)
    ensures ParseHex(a).Some? && ParseHex(b).Some? && ParseHex(c).Some?
    ensures ParseName(s, actualSize) == Some(Part(path, ParseHex(a).value, ParseHex(b).value, ParseHex(c).value, actualSize))
  {
    hide IsField, ParseHex, Fields, Named, LastSlash, Without;
    SixteenLong(a);
    SixteenLong(b);
    SixteenLong(c);
    FieldRead(a);
    FieldRead(b);
    FieldRead(c);
    var whole := Some(Part(path, ParseHex(a).value, ParseHex(b).value, ParseHex(c).value, actualSize));
    assert ParseFields(path, [a, b, c], actualSize) == whole;
    hide ParseFields;
    NamedFields(a, b, c);
    LastSlashOf(path, Named(a, b, c));
    assert s[..|path|] == path && s[|path| + 1..] == Named(a, b, c);
  }

  lemma SixteenLong(f: string)
    requires IsField(f)
    ensures |f| == 16
  {
  }

  lemma AcceptedSpelled(s: string, actualSize: nat) returns (path: string, a: string, b: string, c: string)
    requires ParseName(s, actualSize).Some?
    ensures Spells(s, path, a, b, c)
  {
    hide ParseHex, Fields, Named, LastSlash, IsField, Without;
    var i := LastSlash(s);
    var name := s[i + 1..];
    var fields := Fields(name);
    assert s == s[..i] + "/" + name;
    path, a, b, c := s[..i], fields[0], fields[1], fields[2];
    hide ParseName;
    FieldsThree(name);
    FieldRead(a);
    FieldRead(b);
    FieldRead(c);
  }

  /** A name is accepted exactly when it is a path, a slash and three fields. */
  lemma NameAccepted(s: string, actualSize: nat)
    ensures ParseName(s, actualSize).Some? <==> exists path, a, b, c :: Spells(s, path, a, b, c)
  {
    hide ParseName, Spells;
    if ParseName(s, actualSize).Some? {
      var path, a, b, c := AcceptedSpelled(s, actualSize);
    }
    if exists path, a, b, c :: Spells(s, path, a, b, c) {
      var path, a, b, c :| Spells(s, path, a, b, c);
      SpelledRead(s, path, a, b, c, actualSize);
    }
  }

  /** The name of a part, without the prefix, is read as that part. */
  lemma RemoteRoundTrip(p: Part, prefix: string, actualSize: nat)
    requires Fits(p) && p.path != ""
    ensures Before(prefix) <= RemotePath(p, prefix)
    ensures ParseName(RemotePath(p, prefix)[|Before(prefix)|..], actualSize) == Some(p.(actualSize := actualSize))
  {
    hide IsField, ParseHex, ParseName, Named, Padded, TrimSlashes;
    PaddedRead(p.fileSize);
    PaddedRead(p.offset);
    PaddedRead(p.size);
    assert RemotePath(p, prefix)[|Before(prefix)|..] == Relative(p);
    SpelledRead(Relative(p), p.path, Padded(p.fileSize), Padded(p.offset), Padded(p.size), actualSize);
  }

  /** Under one prefix, two parts share an object exactly when they have the same path and sizes. */
  lemma NamesApart(p: Part, q: Part, prefix: string)
    requires Fits(p) && Fits(q)
    ensures RemotePath(p, prefix) == RemotePath(q, prefix) <==> NameOf(p) == NameOf(q)
  {
    hide Padded, Named, Before;
    if RemotePath(p, prefix) == RemotePath(q, prefix) {
      SameTail(Before(prefix), Relative(p), Relative(q));
      SameSizes(p, q);
    }
  }

  lemma SameSizes(p: Part, q: Part)
    requires Fits(p) && Fits(q) && Relative(p) == Relative(q)
    ensures NameOf(p) == NameOf(q)
  {
    hide Padded;
    var a, b, c := Padded(p.fileSize), Padded(p.offset), Padded(p.size);
    var x, y, z := Padded(q.fileSize), Padded(q.offset), Padded(q.size);
    PaddedRead(p.fileSize);
    PaddedRead(p.offset);
    PaddedRead(p.size);
    PaddedRead(q.fileSize);
    PaddedRead(q.offset);
    PaddedRead(q.size);
    hide IsField;
    SixteenLong(a);
    SixteenLong(b);
    SixteenLong(c);
    SixteenLong(x);
    SixteenLong(y);
    SixteenLong(z);
    SameFront(p.path + "/", Named(a, b, c), q.path + "/", Named(x, y, z));
    SameFront(p.path, "/", q.path, "/");
    SameNamed(a, b, c, x, y, z);
  }

  lemma SameFront(a: string, b: string, c: string, d: string)
    requires a + b == c + d && |b| == |d|
    ensures a == c && b == d
  {
    assert (a + b)[..|a|] == a && (c + d)[..|c|] == c;
    assert (a + b)[|a|..] == b && (c + d)[|c|..] == d;
  }

  lemma SameTail(a: string, b: string, c: string)
    requires a + b == a + c
    ensures b == c
  {
    assert (a + b)[|a|..] == b && (a + c)[|a|..] == c;
  }

  /** The last fifty characters hold no sign and no lower-case digit. */
  predicate Canonical(s: string) {
    forall i :: |s| - 50 <= i < |s| && 0 <= i ==> s[i] == '_' || UpperDigit(s[i])
  }

  /** An accepted name is the one its part is written under exactly when it is canonical. */
  lemma NameCanonical(s: string, actualSize: nat)
    requires ParseName(s, actualSize).Some?
    ensures |s| >= 50 && Fits(ParseName(s, actualSize).value)
    ensures RemotePath(ParseName(s, actualSize).value, "") == s
            <==> Canonical(s)
  {
    hide ParseName, IsField, ParseHex, Named, Padded, Canonical;
    var path, a, b, c := AcceptedSpelled(s, actualSize);
    SpelledRead(s, path, a, b, c, actualSize);
    CanonicalSpelling(s, path, a, b, c);
    assert Before("") == "";
  }

  lemma CanonicalSpelling(s: string, path: string, a: string, b: string, c: string)
    requires Spells(s, path, a, b, c) && ParseHex(a).Some? && ParseHex(b).Some? && ParseHex(c).Some?
    ensures |s| >= 50 && ParseHex(a).value < U64 && ParseHex(b).value < U64 && ParseHex(c).value < U64
    ensures s == path + "/" + Named(Padded(ParseHex(a).value), Padded(ParseHex(b).value), Padded(ParseHex(c).value))
            <==> Canonical(s)
  {
    hide ParseHex, Padded;
    var x, y, z := ParseHex(a).value, ParseHex(b).value, ParseHex(c).value;
    FieldRead(a);
    FieldRead(b);
    FieldRead(c);
    SixteenLong(a);
    SixteenLong(b);
    SixteenLong(c);
    PaddedRead(x);
    PaddedRead(y);
    PaddedRead(z);
    SameNamed(a, b, c, Padded(x), Padded(y), Padded(z));
    UpperNamed(a, b, c);
    var name := Named(a, b, c);
    if s == path + "/" + Named(Padded(x), Padded(y), Padded(z)) {
      SameTail(path + "/", name, Named(Padded(x), Padded(y), Padded(z)));
    }
    assert |name| == 50;
    assert forall i :: 0 <= i < 50 ==> name[i] == s[|s| - 50 + i];
    if forall i :: 0 <= i < 50 ==> name[i] == '_' || UpperDigit(name[i]) {
      forall i | |s| - 50 <= i < |s| ensures s[i] == '_' || UpperDigit(s[i]) {
        assert s[i] == name[i - (|s| - 50)];
      }
    }
  }

  lemma SameNamed(a: string, b: string, c: string, x: string, y: string, z: string)
    requires |a| == |b| == |c| == |x| == |y| == |z| == 16
    ensures Named(a, b, c) == Named(x, y, z) <==> a == x && b == y && c == z
  {
    var m, n := Named(a, b, c), Named(x, y, z);
    assert m[..16] == a && m[17..33] == b && m[34..] == c;
    assert n[..16] == x && n[17..33] == y && n[34..] == z;
  }

  lemma UpperNamed(a: string, b: string, c: string)
    requires IsField(a) && IsField(b) && IsField(c)
    ensures |Named(a, b, c)| == 50
    ensures Upper(a) && Upper(b) && Upper(c)
            <==> forall i :: 0 <= i < 50 ==> Named(a, b, c)[i] == '_' || UpperDigit(Named(a, b, c)[i])
  {
    var m := Named(a, b, c);
    FieldPlain(a);
    FieldPlain(b);
    FieldPlain(c);
    if forall i :: 0 <= i < 50 ==> m[i] == '_' || UpperDigit(m[i]) {
      forall i | 0 <= i < 16
        ensures UpperDigit(a[i]) && UpperDigit(b[i]) && UpperDigit(c[i])
      {
        assert m[i] == a[i] && m[17 + i] == b[i] && m[34 + i] == c[i];
      }
    }
  }

  // ----- keys of parts

  /** The text of a key: `unique-N`, or path, offset, size and actual size. */
  function KeyText(k: Key): string
    requires k.Unique? ==> k.n < U64
    requires k.Fixed? ==> k.offset < U64 && k.size < U64 && k.actualSize < U64
  {
    match k
    case Unique(n) => "unique-" + Padded(n)
    case Fixed(path, offset, size, actualSize) =>
      path + ("#" + Padded(offset) + ("#" + Padded(size) + ("#" + Padded(actualSize))))
  }

  lemma PaddedApart(m: nat, n: nat)
    requires m < U64 && n < U64
    ensures |Padded(m)| == |Padded(n)| == 16 && (Padded(m) == Padded(n) ==> m == n)
  {
    PaddedRead(m);
    PaddedRead(n);
  }

  /** Keys are the same text exactly when they are the same key. */
  lemma KeysApart(k: Key, l: Key)
    requires k.Unique? ==> k.n < U64
    requires k.Fixed? ==> k.offset < U64 && k.size < U64 && k.actualSize < U64
    requires l.Unique? ==> l.n < U64
    requires l.Fixed? ==> l.offset < U64 && l.size < U64 && l.actualSize < U64
    ensures KeyText(k) == KeyText(l) <==> k == l
  {
    hide Padded;
    match (k, l)
    case (Unique(m), Unique(n)) =>
      PaddedApart(m, n);
      if KeyText(k) == KeyText(l) {
        SameTail("unique-", Padded(m), Padded(n));
      }
    case (Fixed(p, a, b, c), Fixed(q, x, y, z)) =>
      PaddedApart(a, x);
      PaddedApart(b, y);
      PaddedApart(c, z);
      if KeyText(k) == KeyText(l) {
        SameFront(p, KeyText(k)[|p|..], q, KeyText(l)[|q|..]);
        SameFront("#" + Padded(a), "#" + Padded(b) + ("#" + Padded(c)), "#" + Padded(x), "#" + Padded(y) + ("#" + Padded(z)));
        SameFront("#" + Padded(b), "#" + Padded(c), "#" + Padded(y), "#" + Padded(z));
        SameTail("#", Padded(a), Padded(x));
        SameTail("#", Padded(b), Padded(y));
        SameTail("#", Padded(c), Padded(z));
      }
    case (Unique(n), Fixed(p, a, b, c)) =>
      UniqueApart(n, l);
    case (Fixed(p, a, b, c), Unique(n)) =>
      UniqueApart(n, k);
  }

  lemma UniqueApart(n: nat, k: Key)
    requires n < U64 && k.Fixed? && k.offset < U64 && k.size < U64 && k.actualSize < U64
    ensures KeyText(Unique(n)) != KeyText(k)
  {
    hide Padded;
    PaddedApart(n, k.actualSize);
    var u, f := KeyText(Unique(n)), KeyText(k);
    assert u[|u| - 17] == '-';
    assert f[|f| - 17] == '#';
  }
}
