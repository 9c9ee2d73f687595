/**
 * The string key under which a connection is stored, `source::path_key::target`,
 * and Python's `str.split("::")`, which every reader of the key uses to decode it.
 */
module ConnectionKeys {

  const Sep: string := "::"

  /** The key of the connection from `source`, along its path `pathKey`, to `target`. */
  function Encode(source: string, pathKey: string, target: string): string {
    source + Sep + pathKey + Sep + target
  }

  /** `s` contains the delimiter. */
  predicate HasSep(s: string) {
    exists i :: 0 <= i < |s| - 1 && s[i] == ':' && s[i + 1] == ':'
  }

  /** `s` ends with a colon, so a following delimiter would be found one position early. */
  predicate EndsWithColon(s: string) {
    |s| > 0 && s[|s| - 1] == ':'
  }

  /**
   * Python's `s.split("::")`: cut at the leftmost occurrence of the delimiter,
   * then go on with what follows it.
   */
  function Split(s: string): (parts: seq<string>)
    ensures |parts| >= 1
  {
    if |s| < 2 then [s]
    else if s[0] == ':' && s[1] == ':' then [""] + Split(s[2..])
    else
      var rest := Split(s[1..]);
      [[s[0]] + rest[0]] + rest[1..]
  }

  /** `"::".join(parts)`. */
  function Join(parts: seq<string>): string
    requires |parts| >= 1
  {
    if |parts| == 1 then parts[0] else parts[0] + Sep + Join(parts[1..])
  }

  /** A string without the delimiter is a single part. */
  lemma {:induction false} SplitWithoutSep(s: string)
    requires !HasSep(s)
    ensures Split(s) == [s]
  {
    if |s| >= 2 {
      assert !(s[0] == ':' && s[1] == ':');
      assert !HasSep(s[1..]) by {
        forall i | 0 <= i < |s[1..]| - 1
          ensures !(s[1..][i] == ':' && s[1..][i + 1] == ':')
        {
          assert s[1..][i] == s[i + 1] && s[1..][i + 1] == s[i + 2];
        }
      }
      SplitWithoutSep(s[1..]);
      assert [s[0]] + s[1..] == s;
    }
  }

  /**
   * The first cut of `a + "::" + b` falls right after `a` exactly when `a` holds
   * no delimiter and does not end with a colon.
   */
  lemma {:induction false} SplitAfterHead(a: string, b: string)
    requires !HasSep(a) && !EndsWithColon(a)
    ensures Split(a + Sep + b) == [a] + Split(b)
  {
    var s := a + Sep + b;
    if a == [] {
      assert s == "::" + b && s[2..] == b;
    } else {
      var a' := a[1..];
      assert !HasSep(a') by {
        forall i | 0 <= i < |a'| - 1
          ensures !(a'[i] == ':' && a'[i + 1] == ':')
        {
          assert a'[i] == a[i + 1] && a'[i + 1] == a[i + 2];
        }
      }
      assert !EndsWithColon(a') by {
        if |a'| > 0 { assert a'[|a'| - 1] == a[|a| - 1]; }
      }
      assert s[0] == a[0];
      assert s[1..] == a' + Sep + b;
      if a' == [] {
        assert s[1] == ':' && a[0] != ':';
      } else {
        assert s[1] == a'[0];
        assert a'[0] == a[1];
      }
      SplitAfterHead(a', b);
      assert [a[0]] + a' == a;
    }
  }

  /** Splitting undoes joining for every sequence of parts that a split can produce. */
  lemma {:induction false} SplitJoin(parts: seq<string>)
    requires |parts| >= 1
    requires forall i :: 0 <= i < |parts| ==> !HasSep(parts[i])
    requires forall i :: 0 <= i < |parts| - 1 ==> !EndsWithColon(parts[i])
    ensures Split(Join(parts)) == parts
  {
    if |parts| == 1 {
      SplitWithoutSep(parts[0]);
    } else {
      SplitAfterHead(parts[0], Join(parts[1..]));
      SplitJoin(parts[1..]);
    }
  }

  /** Joining undoes splitting, for every string. */
  lemma {:induction false} JoinSplit(s: string)
    ensures Join(Split(s)) == s
  {
    if |s| >= 2 {
      if s[0] == ':' && s[1] == ':' {
        JoinSplit(s[2..]);
        assert ([""] + Split(s[2..]))[1..] == Split(s[2..]);
        assert s == Sep + s[2..];
      } else {
        var rest := Split(s[1..]);
        JoinSplit(s[1..]);
        var parts := [[s[0]] + rest[0]] + rest[1..];
        if |rest| == 1 {
          assert [s[0]] + s[1..] == s;
        } else {
          assert parts[1..] == rest[1..];
          assert Join(rest) == rest[0] + Sep + Join(rest[1..]);
          assert [s[0]] + s[1..] == s;
        }
      }
    }
  }

  /**
   * Key round-trip: decoding an encoded key gives back source, path key and target,
   * provided none holds the delimiter and neither of the first two ends with a colon.
   */
  lemma KeyRoundTrip(source: string, pathKey: string, target: string)
    requires !HasSep(source) && !HasSep(pathKey) && !HasSep(target)
    requires !EndsWithColon(source) && !EndsWithColon(pathKey)
    ensures Split(Encode(source, pathKey, target)) == [source, pathKey, target]
  {
    var parts := [source, pathKey, target];
    assert Join(parts[2..]) == target;
    assert Join(parts[1..]) == pathKey + Sep + target;
    assert Join(parts) == Encode(source, pathKey, target);
    SplitJoin(parts);
  }

  /** The first part of a split never ends with a colon when the string holds the delimiter. */
  lemma {:induction false} FirstPartNoColon(s: string)
    requires HasSep(s)
    ensures !EndsWithColon(Split(s)[0])
  {
    if !(s[0] == ':' && s[1] == ':') {
      var t := s[1..];
      assert HasSep(t) by {
        var i :| 0 <= i < |s| - 1 && s[i] == ':' && s[i + 1] == ':';
        assert i > 0 && t[i - 1] == s[i] && t[i] == s[i + 1];
      }
      FirstPartNoColon(t);
      var rest := Split(t);
      if rest[0] == [] {
        assert t[0] == ':' by {
          FirstPartEmpty(t);
        }
      } else {
        assert ([s[0]] + rest[0])[|rest[0]|] == rest[0][|rest[0]| - 1];
      }
    }
  }

  /** A string with the delimiter whose first part is empty starts with the delimiter. */
  lemma FirstPartEmpty(t: string)
    requires HasSep(t) && Split(t)[0] == []
    ensures t[0] == ':' && t[1] == ':'
  {
  }

  /**
   * Excluding the delimiter alone is not enough: with a source ending in a colon, the
   * key never decodes to the triple it was built from, whatever the parts.
   */
  lemma TrailingColonBreaksRoundTrip(source: string, pathKey: string, target: string)
    ensures Split(Encode(source + ":", pathKey, target)) != [source + ":", pathKey, target]
  {
    var key := Encode(source + ":", pathKey, target);
    assert HasSep(key) by {
      var i := |source| + 1;
      assert key[i] == ':' && key[i + 1] == ':';
    }
    FirstPartNoColon(key);
  }

  /** Every part of a split except the last never ends with a colon, for every string. */
  lemma {:induction false} InnerPartsNoColon(s: string)
    ensures forall i :: 0 <= i < |Split(s)| - 1 ==> !EndsWithColon(Split(s)[i])
  {
    if |s| >= 2 {
      if s[0] == ':' && s[1] == ':' {
        InnerPartsNoColon(s[2..]);
      } else {
        var t := s[1..];
        var rest := Split(t);
        InnerPartsNoColon(t);
        if |rest| > 1 && rest[0] == [] {
          assert HasSep(t) by {
            if !HasSep(t) { SplitWithoutSep(t); }
          }
          FirstPartEmpty(t);
          assert s[1] == ':';
        }
      }
    }
  }

  /**
   * The same holds for the path key: with a path key ending in a colon, the key never
   * decodes to the triple it was built from, whatever the parts.
   */
  lemma PathKeyColonBreaksRoundTrip(source: string, pathKey: string, target: string)
    ensures Split(Encode(source, pathKey + ":", target)) != [source, pathKey + ":", target]
  {
    var key := Encode(source, pathKey + ":", target);
    InnerPartsNoColon(key);
    var parts := Split(key);
    if |parts| == 3 && parts[1] == pathKey + ":" {
      assert EndsWithColon(parts[1]);
    }
  }

  /**
   * The smallest instance: the source `a:` moves the first cut one position to the left,
   * and the key `a:::p::b` decodes to `a`, `:p`, `b`.
   */
  lemma TrailingColonExample()
    ensures !HasSep("a:") && !HasSep("p") && !HasSep("b")
    ensures Encode("a:", "p", "b") == "a:::p::b"
    ensures Split(Encode("a:", "p", "b")) == ["a", ":p", "b"]
  {
    assert !HasSep("a:") by {
      forall i | 0 <= i < 1 ensures !("a:"[i] == ':' && "a:"[i + 1] == ':') {
        assert "a:"[0] == 'a';
      }
    }
    assert !HasSep(":p") by {
      forall i | 0 <= i < 1 ensures !(":p"[i] == ':' && ":p"[i + 1] == ':') {
        assert ":p"[1] == 'p';
      }
    }
    var key := Encode("a:", "p", "b");
    assert key == "a" + Sep + (":p" + Sep + "b");
    assert !EndsWithColon(":p") && !EndsWithColon("a");
    SplitAfterHead("a", ":p" + Sep + "b");
    SplitAfterHead(":p", "b");
    SplitWithoutSep("b");
  }
}
