/**
 * The names the frame saver derives: the video name taken from the video path,
 * and the object keys `frame/<i>_<name>.txt` and `mask/<i>_<name>.txt` under
 * which frame number i and its mask are stored.
 */
module FrameKeys {

  /** `s.split(c)[0]`: the text before the first `c`, all of `s` when there is none. */
  function BeforeFirst(s: string, c: char): (r: string)
    ensures r <= s
    ensures c !in r
    ensures |r| == |s| || s[|r|] == c
  {
    if s == [] || s[0] == c then [] else [s[0]] + BeforeFirst(s[1..], c)
  }

  /** The three properties in BeforeFirst's contract pin its result down. */
  lemma {:induction false} BeforeFirstUnique(s: string, c: char, r: string)
    requires r <= s && c !in r && (|r| == |s| || s[|r|] == c)
    ensures r == BeforeFirst(s, c)
  {
    if s != [] && s[0] != c {
      assert r != [];
      BeforeFirstUnique(s[1..], c, r[1..]);
    }
  }

  /** `s.split(c)[-1]`: the text after the last `c`, all of `s` when there is none. */
  function AfterLast(s: string, c: char): (r: string)
    ensures |r| <= |s| && r == s[|s| - |r|..]
    ensures c !in r
    ensures |r| == |s| || s[|s| - |r| - 1] == c
  {
    if s == [] || s[|s| - 1] == c then [] else AfterLast(s[..|s| - 1], c) + [s[|s| - 1]]
  }

  /** Text without `c` appended after the last `c` stays behind it. */
  lemma {:induction false} AfterLastAppend(p: string, r: string, c: char)
    requires c !in r
    ensures AfterLast(p + r, c) == AfterLast(p, c) + r
  {
    if r != [] {
      var m := |r|;
      assert (p + r)[..|p + r| - 1] == p + r[..m - 1];
      AfterLastAppend(p, r[..m - 1], c);
      assert r == r[..m - 1] + [r[m - 1]];
    } else {
      assert p + r == p;
    }
  }

  /** Whatever stands before a final run of text without `c` (nothing, or text
      ending in `c`) is cut off: with AfterLast's contract this pins its result down. */
  lemma AfterLastOfSplit(p: string, r: string, c: char)
    requires c !in r && (p == [] || p[|p| - 1] == c)
    ensures AfterLast(p + r, c) == r
  {
    AfterLastAppend(p, r, c);
  }

  /** `video_path.split('/')[-1].split('.')[0]`: the file name of the video
      without any extension. */
  function VideoName(path: string): (name: string)
    ensures '/' !in name && '.' !in name
    ensures name <= AfterLast(path, '/')
  {
    BeforeFirst(AfterLast(path, '/'), '.')
  }

  /** The name the saver uses for the demonstration video. */
  lemma VideoNameOfDemo()
    ensures VideoName("traffic_video1.mov") == "traffic_video1"
  {
    AfterLastOfSplit("", "traffic_video1.mov", '/');
    assert "" + "traffic_video1.mov" == "traffic_video1.mov";
    BeforeFirstUnique("traffic_video1.mov", '.', "traffic_video1");
  }

  /** Directories in front of the file name do not reach the video name. */
  lemma VideoNameDropsDirectories(dir: string, file: string)
    requires '/' !in file
    ensures VideoName(dir + "/" + file) == VideoName(file)
  {
    AfterLastOfSplit(dir + "/", file, '/');
    AfterLastOfSplit([], file, '/');
    assert [] + file == file;
  }

  predicate IsDigit(ch: char)
  {
    '0' <= ch <= '9'
  }

  function DigitChar(d: nat): (ch: char)
    requires d < 10
    ensures IsDigit(ch) && (ch as int) - ('0' as int) == d
  {
    ['0', '1', '2', '3', '4', '5', '6', '7', '8', '9'][d]
  }

  /** `str(n)` for a non-negative integer: its decimal digits. */
  function Decimal(n: nat): (s: string)
    ensures s != []
    ensures forall k :: 0 <= k < |s| ==> IsDigit(s[k])
    ensures |s| > 1 ==> s[0] != '0'
  {
    if n < 10 then [DigitChar(n)] else Decimal(n / 10) + [DigitChar(n % 10)]
  }

  function DigitValue(ch: char): nat
    requires IsDigit(ch)
  {
    (ch as int) - ('0' as int)
  }

  /** The number a string of decimal digits denotes. */
  function DecimalValue(s: string): nat
    requires forall k :: 0 <= k < |s| ==> IsDigit(s[k])
  {
    if s == [] then 0
    else DecimalValue(s[..|s| - 1]) * 10 + DigitValue(s[|s| - 1])
  }

  /** Reading back the decimal text of a number gives the number. */
  lemma {:induction false} DecimalRoundTrip(n: nat)
    ensures DecimalValue(Decimal(n)) == n
  {
    if n >= 10 {
      DecimalRoundTrip(n / 10);
      var s := Decimal(n);
      assert s[..|s| - 1] == Decimal(n / 10);
    }
  }

  /** `'%s_%s.txt' % (ith_frame, video_name)`: a text file name that holds no '/'
      when the video name holds none. */
  function FileName(i: nat, name: string): (r: string)
    ensures |r| > 4 && r[|r| - 4..] == ".txt"
    ensures '/' !in name ==> '/' !in r
  {
    Decimal(i) + "_" + name + ".txt"
  }

  /** `dir + file`: when `dir` is empty or ends in `c` and `file` holds no `c`, the
      text after the last `c` is `file`. */
  lemma BaseName(dir: string, file: string, c: char)
    ensures (dir == [] || dir[|dir| - 1] == c) && c !in file ==> AfterLast(dir + file, c) == file
  {
    if (dir == [] || dir[|dir| - 1] == c) && c !in file {
      AfterLastOfSplit(dir, file, c);
    }
  }

  /** The key a file is stored under in the bucket folder `folder` (written with its
      trailing '/'): `folder + file_name`. For a video name without '/' the file name
      is everything after the key's last '/'. */
  function Key(folder: string, i: nat, name: string): (r: string)
    ensures folder <= r
    ensures (folder == [] || folder[|folder| - 1] == '/') && '/' !in name ==> AfterLast(r, '/') == FileName(i, name)
  {
    BaseName(folder, FileName(i, name), '/');
    folder + FileName(i, name)
  }

  /** The key the frame is stored under: `'frame/%s' % file_name`. */
  function FrameKey(i: nat, name: string): string
  {
    Key("frame/", i, name)
  }

  /** The key the mask is stored under: `'mask/%s' % file_name`. */
  function MaskKey(i: nat, name: string): string
  {
    Key("mask/", i, name)
  }

  /** The frame key and the mask key of one frame carry the same file name behind
      their different prefixes, so no frame key is ever a mask key. */
  lemma {:induction false} KeysDifferOnlyInPrefix(i: nat, name: string, j: nat, name': string)
    ensures FrameKey(i, name)[..6] == "frame/" && FrameKey(i, name)[6..] == FileName(i, name)
    ensures MaskKey(i, name)[..5] == "mask/" && MaskKey(i, name)[5..] == FileName(i, name)
    ensures FrameKey(i, name) != MaskKey(j, name')
  {
    var f, m := FrameKey(i, name), MaskKey(j, name');
    assert f[..6] == "frame/" && f[6..] == FileName(i, name);
    assert m[..5] == "mask/" && m[5..] == FileName(j, name');
    assert f[0] == 'f' && m[0] == 'm';
  }

  /** The frame number of a file name is the text before its first '_'. */
  lemma {:induction false} FileNameIndex(i: nat, name: string)
    ensures BeforeFirst(FileName(i, name), '_') == Decimal(i)
  {
    var d, f := Decimal(i), FileName(i, name);
    assert f == d + ("_" + name + ".txt");
    assert d <= f && f[|d|] == '_';
    assert '_' !in d;
    BeforeFirstUnique(f, '_', d);
  }

  /** Two file names are equal exactly when their frame numbers and video names are. */
  lemma {:induction false} FileNameInjective(i: nat, name: string, j: nat, name': string)
    ensures FileName(i, name) == FileName(j, name') <==> i == j && name == name'
  {
    if FileName(i, name) == FileName(j, name') {
      var f := FileName(i, name);
      FileNameIndex(i, name);
      FileNameIndex(j, name');
      DecimalRoundTrip(i);
      DecimalRoundTrip(j);
      var n := |Decimal(i)|;
      assert f == Decimal(i) + "_" + name + ".txt";
      assert f == Decimal(j) + "_" + name' + ".txt";
      assert name == f[n + 1..|f| - 4];
      assert name' == f[n + 1..|f| - 4];
    }
  }

  /** Distinct frame numbers of one video never share a frame key or a mask key. */
  lemma KeysDistinctAcrossFrames(i: nat, j: nat, name: string)
    requires i != j
    ensures FrameKey(i, name) != FrameKey(j, name)
    ensures MaskKey(i, name) != MaskKey(j, name)
  {
    FileNameInjective(i, name, j, name);
    assert FrameKey(i, name)[6..] == FileName(i, name);
    assert FrameKey(j, name)[6..] == FileName(j, name);
    assert MaskKey(i, name)[5..] == FileName(i, name);
    assert MaskKey(j, name)[5..] == FileName(j, name);
  }
}
