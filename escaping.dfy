/**
 * The two backslash rewrites of floorplans_to_gis.py: `dwg_selector` doubles every
 * backslash of a drawing path before handing it on (AutoCAD's console wants them
 * doubled), and `gis_ready_files` collapses every doubled backslash back to one
 * before copying the file.
 */
module PathEscape {

  /** One character of a path, escaped. */
  function EscapeChar(c: char): string {
    if c == '\\' then "\\\\" else [c]
  }

  /** `path.replace('\\', '\\\\')`: every backslash doubled. */
  function Escape(s: string): (r: string)
    ensures |r| >= |s|
  {
    if s == [] then [] else EscapeChar(s[0]) + Escape(s[1..])
  }

  /**
   * `path.replace('\\\\', '\\')`: scanning left to right, every non-overlapping pair
   * of backslashes becomes one backslash, as Python's `str.replace` does.
   */
  function Unescape(s: string): (r: string)
    ensures |r| <= |s|
  {
    if |s| >= 2 && s[0] == '\\' && s[1] == '\\' then "\\" + Unescape(s[2..])
    else if s == [] then []
    else [s[0]] + Unescape(s[1..])
  }

  /** Collapsing undoes doubling: the copy filter recovers the walked path exactly. */
  lemma {:induction false} UnescapeEscape(s: string)
    ensures Unescape(Escape(s)) == s
  {
    if s != [] {
      UnescapeEscape(s[1..]);
      if s[0] == '\\' {
        assert Escape(s) == "\\\\" + Escape(s[1..]);
        assert (Escape(s))[2..] == Escape(s[1..]);
      } else {
        assert Escape(s) == [s[0]] + Escape(s[1..]);
        assert (Escape(s))[1..] == Escape(s[1..]);
      }
      assert s == [s[0]] + s[1..];
    }
  }

  /** The other order does not round-trip: a lone backslash and a doubled one collapse alike. */
  lemma UnescapeNotInjective()
    ensures Unescape("\\") == Unescape("\\\\") == "\\"
    ensures Escape(Unescape("\\")) != "\\"
  {
    assert Unescape("\\") == ['\\'] + Unescape([]);
    assert Unescape("\\\\") == "\\" + Unescape([]);
  }

  /** Doubling works character by character, so it distributes over concatenation. */
  lemma {:induction false} EscapeConcat(a: string, b: string)
    ensures Escape(a + b) == Escape(a) + Escape(b)
  {
    if a == [] {
      assert a + b == b;
    } else {
      var ab := a + b;
      assert ab[0] == a[0] && ab[1..] == a[1..] + b;
      assert Escape(ab) == EscapeChar(a[0]) + Escape(a[1..] + b);
      EscapeConcat(a[1..], b);
      assert Escape(a) == EscapeChar(a[0]) + Escape(a[1..]);
    }
  }

  /** A path without backslashes is left alone. */
  lemma {:induction false} EscapeNoBackslash(s: string)
    requires '\\' !in s
    ensures Escape(s) == s
  {
    if s != [] {
      assert s[0] != '\\';
      EscapeNoBackslash(s[1..]);
      assert s == [s[0]] + s[1..];
    }
  }

  /** Doubling keeps the last character of a non-empty path. */
  lemma EscapeLast(s: string)
    requires s != []
    ensures Escape(s) != [] && Escape(s)[|Escape(s)| - 1] == s[|s| - 1]
  {
    var init, last := s[..|s| - 1], [s[|s| - 1]];
    assert s == init + last;
    EscapeConcat(init, last);
    assert Escape(last) == EscapeChar(s[|s| - 1]) + Escape([]);
  }
}
