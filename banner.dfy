/** Where an uploaded course banner is stored: the path is built from the
    course id, the upload's file name and a timestamp, and nothing else.
    The directory creation and the file write are left to the caller. */
module Banner {
  import opened Models

  /** The text after the last '.' of `name`, or all of `name` when it has no
      '.', as `name.split('.')[-1]` gives it. */
  function Extension(name: string): (ext: string)
    ensures '.' !in ext
    ensures |ext| <= |name| && name[|name| - |ext|..] == ext
    ensures '.' !in name ==> ext == name
    ensures '.' in name ==> |ext| < |name| && name[|name| - |ext| - 1] == '.'
    decreases |name|
  {
    if name == [] then []
    else
      var init, last := name[..|name| - 1], name[|name| - 1];
      assert name == init + [last];
      if last == '.' then []
      else
        var e := Extension(init);
        assert name[|name| - |e| - 1..] == init[|init| - |e|..] + [last];
        e + [last]
  }

  predicate IsDigit(ch: char)
  {
    '0' <= ch <= '9'
  }

  predicate AllDigits(s: string)
  {
    forall i | 0 <= i < |s| :: IsDigit(s[i])
  }

  /** The decimal numeral of `n`, most significant digit first. */
  function NatToString(n: nat): (s: string)
    ensures |s| > 0 && AllDigits(s)
    ensures s[0] == '0' <==> n == 0
    ensures |s| > 1 ==> s[0] != '0'
  {
    if n < 10 then [(n as char) + '0']
    else NatToString(n / 10) + [((n % 10) as char) + '0']
  }

  /** Python's `str` on an integer: a '-' sign and the numeral of its size. */
  function IntToString(n: int): (s: string)
    ensures '_' !in s && '.' !in s
  {
    if n < 0 then "-" + NatToString(-n) else NatToString(n)
  }

  /** The numeral's value; the inverse of NatToString. */
  function ParseNat(s: string): nat
    requires AllDigits(s)
  {
    if s == [] then 0 else ParseNat(s[..|s| - 1]) * 10 + ((s[|s| - 1] - '0') as nat)
  }

  function ParseInt(s: string): Option<int>
  {
    if |s| > 1 && s[0] == '-' && AllDigits(s[1..]) then Some(0 - ParseNat(s[1..]))
    else if |s| > 0 && AllDigits(s) then Some(ParseNat(s))
    else None
  }

  lemma {:induction false} NatRoundTrip(n: nat)
    ensures ParseNat(NatToString(n)) == n
  {
    var s := NatToString(n);
    if n >= 10 {
      NatRoundTrip(n / 10);
      assert s[..|s| - 1] == NatToString(n / 10);
    }
  }

  lemma IntRoundTrip(n: int)
    ensures ParseInt(IntToString(n)) == Some(n)
  {
    if n < 0 {
      NatRoundTrip(-n);
      assert IntToString(n)[1..] == NatToString(-n);
    } else {
      NatRoundTrip(n);
    }
  }

  /** The part of the stored file's name before the extension's '.'. */
  function Stem(courseId: int, timestamp: string): string
  {
    "course_" + IntToString(courseId) + "_banner_" + timestamp
  }

  /** The stored file's name: "course_<id>_banner_<timestamp>.<extension>". */
  function FileName(courseId: int, timestamp: string, filename: string): (name: string)
    ensures "course_" <= name
  {
    var stem := Stem(courseId, timestamp);
    assert stem[..7] == "course_";
    stem + "." + Extension(filename)
  }

  /** `os.path.join("banners", name)`: the name never starts with '/', so the
      join puts one separator between the two. */
  function SavePath(courseId: int, filename: string, timestamp: string): (p: string)
    ensures "banners/" <= p && "course_" <= p[8..]
  {
    var name := FileName(courseId, timestamp, filename);
    assert ("banners/" + name)[8..] == name;
    "banners/" + name
  }

  // ------------------------------------------------ reading a path back

  /** What a banner path records. */
  datatype BannerName = BannerName(courseId: int, timestamp: string, extension: string)

  /** The first index of `ch` in `s`, or |s| when there is none. */
  function IndexOf(s: string, ch: char): (i: nat)
    ensures i <= |s|
    ensures i < |s| ==> s[i] == ch
    ensures forall k | 0 <= k < i :: s[k] != ch
  {
    if s == [] then 0
    else if s[0] == ch then 0
    else 1 + IndexOf(s[1..], ch)
  }

  /** The last index of `ch` in `s`, or -1 when there is none. */
  function LastIndexOf(s: string, ch: char): (i: int)
    ensures -1 <= i < |s|
    ensures 0 <= i ==> s[i] == ch
    ensures forall k | i < k < |s| :: s[k] != ch
  {
    if s == [] then -1
    else if s[|s| - 1] == ch then |s| - 1
    else LastIndexOf(s[..|s| - 1], ch)
  }

  /** Splits a file name at the first '_' after "course_", checks the
      "_banner_" infix and splits the rest at its last '.'. */
  function ParseFileName(s: string): Option<BannerName>
  {
    if "course_" <= s then ParseIdAndRest(s[7..]) else None
  }

  function ParseIdAndRest(rest: string): Option<BannerName>
  {
    var i := IndexOf(rest, '_');
    var id := ParseInt(rest[..i]);
    var after := rest[i..];
    if id.Some? && "_banner_" <= after then ParseTail(id.value, after[8..]) else None
  }

  function ParseTail(courseId: int, tail: string): Option<BannerName>
  {
    var j := LastIndexOf(tail, '.');
    if j < 0 then None else Some(BannerName(courseId, tail[..j], tail[j + 1..]))
  }

  function ParseSavePath(p: string): Option<BannerName>
  {
    if "banners/" <= p then ParseFileName(p[8..]) else None
  }

  lemma IndexOfJoin(x: string, y: string, ch: char)
    requires ch !in x && |y| > 0 && y[0] == ch
    ensures IndexOf(x + y, ch) == |x|
  {
    assert (x + y)[|x|] == ch;
  }

  lemma ParseTailJoin(courseId: int, timestamp: string, ext: string)
    requires '.' !in ext
    ensures ParseTail(courseId, timestamp + "." + ext) == Some(BannerName(courseId, timestamp, ext))
  {
    var tail := timestamp + "." + ext;
    assert tail[|timestamp|] == '.';
    assert tail[..|timestamp|] == timestamp;
    assert tail[|timestamp| + 1..] == ext;
  }

  lemma ParseIdAndRestJoin(courseId: int, timestamp: string, ext: string)
    requires '.' !in ext
    ensures ParseIdAndRest(IntToString(courseId) + "_banner_" + timestamp + "." + ext)
            == Some(BannerName(courseId, timestamp, ext))
  {
    var d := IntToString(courseId);
    var tail := timestamp + "." + ext;
    var rest := d + ("_banner_" + tail);
    assert IntToString(courseId) + "_banner_" + timestamp + "." + ext == rest;
    IndexOfJoin(d, "_banner_" + tail, '_');
    assert rest[..|d|] == d;
    IntRoundTrip(courseId);
    assert rest[|d|..] == "_banner_" + tail;
    assert ("_banner_" + tail)[8..] == tail;
    ParseTailJoin(courseId, timestamp, ext);
  }

  lemma ParseFileNameJoin(courseId: int, timestamp: string, ext: string)
    requires '.' !in ext
    ensures ParseFileName(Stem(courseId, timestamp) + "." + ext)
            == Some(BannerName(courseId, timestamp, ext))
  {
    var name := Stem(courseId, timestamp) + "." + ext;
    var rest := IntToString(courseId) + "_banner_" + timestamp + "." + ext;
    assert name == "course_" + rest;
    assert name[7..] == rest;
    ParseIdAndRestJoin(courseId, timestamp, ext);
  }

  /** A banner path determines the course id, the timestamp and the upload's
      extension: two uploads stored under the same path agree on all three. */
  lemma SavePathRoundTrip(courseId: int, filename: string, timestamp: string)
    ensures ParseSavePath(SavePath(courseId, filename, timestamp))
            == Some(BannerName(courseId, timestamp, Extension(filename)))
  {
    var name := FileName(courseId, timestamp, filename);
    assert SavePath(courseId, filename, timestamp)[8..] == name;
    ParseFileNameJoin(courseId, timestamp, Extension(filename));
  }

  lemma {:induction false} ExtensionAfterDot(x: string, ext: string)
    requires '.' !in ext
    ensures Extension(x + "." + ext) == ext
    decreases |ext|
  {
    var s := x + "." + ext;
    if ext == [] {
      assert s[|s| - 1] == '.';
    } else {
      var init := ext[..|ext| - 1];
      assert s[..|s| - 1] == x + "." + init;
      ExtensionAfterDot(x, init);
    }
  }

  /** The stored file keeps the extension of the uploaded file. */
  lemma SavePathKeepsExtension(courseId: int, filename: string, timestamp: string)
    ensures Extension(SavePath(courseId, filename, timestamp)) == Extension(filename)
  {
    var ext := Extension(filename);
    var x := "banners/" + Stem(courseId, timestamp);
    assert SavePath(courseId, filename, timestamp) == x + "." + ext;
    ExtensionAfterDot(x, ext);
  }
}
