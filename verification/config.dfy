/**
 * Port extraction from the base64-encoded OpenVPN configuration carried by
 * every relay record (`extractPortFromConfig`): decode the blob, split the
 * text into lines, and take the third white-space-separated token of the
 * first line that starts with `remote ` and has at least three tokens.
 * Any failure yields the empty string, which the caller reads as "no port".
 */
module Config {
  import opened Wrappers
  import opened GoStrings
  import Base64

  const RemotePrefix: string := "remote "

  /** Go's `string(data)`: each decoded byte becomes the character of the same code. */
  function BytesToString(b: seq<Base64.byte>): (s: string)
    ensures |s| == |b|
    ensures forall i :: 0 <= i < |b| ==> s[i] as int == b[i]
  {
    seq(|b|, i requires 0 <= i < |b| => b[i] as char)
  }

  /** Every character of `s` stands for a byte. */
  predicate IsByteString(s: string)
  {
    forall i :: 0 <= i < |s| ==> s[i] as int < 256
  }

  /** Go's `[]byte(s)` for a string of byte-sized characters. */
  function StringToBytes(s: string): (b: seq<Base64.byte>)
    requires IsByteString(s)
    ensures BytesToString(b) == s
  {
    seq(|s|, i requires 0 <= i < |s| => s[i] as int)
  }

  /**
   * A line that ends the scan: it starts with `remote ` and has three tokens
   * or more, that is, at least two tokens after the keyword; its token 2,
   * the port, is a non-empty run without white space.
   */
  function IsPortLine(line: string): (b: bool)
    ensures b <==> HasPrefix(line, RemotePrefix) && |Fields(line[|RemotePrefix|..])| >= 2
    ensures b ==> Fields(line)[0] == "remote" && Fields(line)[2] != [] && NoSpace(Fields(line)[2])
  {
    HasPrefix(line, RemotePrefix) && (RemoteLineFields(line); |Fields(line)| >= 3)
  }

  /** None of the first `k` lines is a port line. */
  predicate NoPortLineBefore(lines: seq<string>, k: int)
    requires k <= |lines|
  {
    forall j :: 0 <= j < k ==> !IsPortLine(lines[j])
  }

  /**
   * The scan over the decoded lines: the third token of the first port
   * line, or the empty string when there is none.
   */
  function FirstPort(lines: seq<string>): (port: string)
    ensures NoSpace(port)
    decreases |lines|
  {
    if lines == [] then []
    else if IsPortLine(lines[0]) then Fields(lines[0])[2]
    else FirstPort(lines[1..])
  }

  /** The scan yields a port exactly when some line is a port line. */
  lemma {:induction false} FirstPortFound(lines: seq<string>)
    ensures FirstPort(lines) != [] <==> HasPortLine(lines)
    decreases |lines|
  {
    if lines != [] && !IsPortLine(lines[0]) {
      FirstPortFound(lines[1..]);
      if exists i :: 0 <= i < |lines| && IsPortLine(lines[i]) {
        var i :| 0 <= i < |lines| && IsPortLine(lines[i]);
        assert lines[1..][i - 1] == lines[i];
      }
      forall i | 0 <= i < |lines| - 1 && IsPortLine(lines[1..][i])
        ensures IsPortLine(lines[i + 1])
      {
        assert lines[1..][i] == lines[i + 1];
      }
    }
  }

  /** The scan returns the third token of the first port line; later lines are not looked at. */
  lemma {:induction false} FirstPortAt(lines: seq<string>, k: int)
    requires 0 <= k < |lines| && IsPortLine(lines[k]) && NoPortLineBefore(lines, k)
    ensures FirstPort(lines) == Fields(lines[k])[2]
    decreases k
  {
    if k > 0 {
      assert !IsPortLine(lines[0]);
      assert lines[1..][k - 1] == lines[k];
      assert NoPortLineBefore(lines[1..], k - 1) by {
        forall j | 0 <= j < k - 1 ensures !IsPortLine(lines[1..][j]) {
          assert lines[1..][j] == lines[j + 1];
        }
      }
      FirstPortAt(lines[1..], k - 1);
    }
  }

  /** What `extractPortFromConfig` returns for a configuration blob. */
  function ExtractPort(configB64: string): (port: string)
    ensures NoSpace(port)
    ensures !Base64.WellFormed(Base64.StripNewlines(configB64)) ==> port == []
  {
    match Base64.Decode(configB64)
    case None => []
    case Some(data) => FirstPort(Split(BytesToString(data), '\n'))
  }

  /** Some line is a port line. */
  predicate HasPortLine(lines: seq<string>)
  {
    exists i :: 0 <= i < |lines| && IsPortLine(lines[i])
  }

  /**
   * The result is non-empty exactly when the blob decodes and one of its
   * lines is a port line; undecodable blobs and texts without a port line
   * give the empty string.
   */
  lemma ExtractPortFound(configB64: string)
    ensures ExtractPort(configB64) != [] <==>
      Base64.Decode(configB64).Some? && HasPortLine(Split(BytesToString(Base64.Decode(configB64).value), '\n'))
  {
    var decoded := Base64.Decode(configB64);
    if decoded.Some? {
      FirstPortFound(Split(BytesToString(decoded.value), '\n'));
    }
  }

  /** extractPortFromConfig (main.go): decode, split into lines, scan with early return. */
  method ExtractPortFromConfig(configB64: string) returns (port: string)
    ensures port == ExtractPort(configB64)
  {
    var decoded := Base64.Decode(configB64);
    if decoded.None? {
      return [];
    }
    var lines := Split(BytesToString(decoded.value), '\n');
    var i := 0;
    while i < |lines|
      invariant 0 <= i <= |lines|
      invariant FirstPort(lines[i..]) == FirstPort(lines)
    {
      var line := lines[i];
      assert lines[i..][1..] == lines[i + 1..];
      if HasPrefix(line, RemotePrefix) {
        var parts := Fields(line);
        if |parts| >= 3 {
          return parts[2];
        }
      }
      i := i + 1;
    }
    return [];
  }

  /**
   * A line starting with `remote ` has "remote" as its first token, followed
   * by the tokens of the rest of the line; so the port is the second token
   * after the keyword.
   */
  lemma RemoteLineFields(line: string)
    requires HasPrefix(line, RemotePrefix)
    ensures Fields(line) == ["remote"] + Fields(line[|RemotePrefix|..])
  {
    assert RemotePrefix == "remote" + [' '];
    assert NoSpace("remote");
    FieldsAfterWord("remote", ' ', line);
  }

  /** A line that starts with a word and a space splits into that word and the fields of the rest. */
  lemma FieldsAfterWord(w: string, c: char, line: string)
    requires w != [] && NoSpace(w) && IsSpace(c)
    requires HasPrefix(line, w + [c])
    ensures Fields(line) == [w] + Fields(line[|w| + 1..])
  {
    var rest := line[|w| + 1..];
    assert line == w + [c] + rest by {
      assert line[..|w| + 1] == w + [c];
    }
    FieldsAround(w, c, rest);
    FieldsOfToken(w);
  }

  /** The directive `remote <host> <port>` as one line. */
  function Directive(host: string, port: string): string
  {
    RemotePrefix + host + " " + port
  }

  /** A text starts with any of its initial segments. */
  lemma PrefixOfAppend(p: string, rest: string)
    ensures HasPrefix(p + rest, p) && (p + rest)[|p|..] == rest
  {
    assert (p + rest)[..|p|] == p;
  }

  /** A directive with a host and a port token is a port line whose third token is the port. */
  lemma DirectivePort(host: string, port: string)
    requires host != [] && NoSpace(host)
    requires port != [] && NoSpace(port)
    ensures IsPortLine(Directive(host, port))
    ensures Fields(Directive(host, port))[2] == port
  {
    var line, rest := Directive(host, port), host + [' '] + port;
    assert line == RemotePrefix + rest;
    PrefixOfAppend(RemotePrefix, rest);
    RemoteLineFields(line);
    assert line[|RemotePrefix|..] == rest;
    FieldsAround(host, ' ', port);
    FieldsOfToken(host);
    FieldsOfToken(port);
  }

  /**
   * A `remote ` line with fewer than three tokens does not end the scan:
   * wherever it stands, the result is that of the other lines.
   */
  lemma {:induction false} ShortRemoteLineSkipped(before: seq<string>, line: string, after: seq<string>)
    requires HasPrefix(line, RemotePrefix) && |Fields(line)| < 3
    ensures FirstPort(before + [line] + after) == FirstPort(before + after)
    decreases |before|
  {
    if before == [] {
      assert ([line] + after)[1..] == after;
      assert before + [line] + after == [line] + after;
      assert before + after == after;
    } else {
      assert (before + [line] + after)[0] == before[0] && (before + after)[0] == before[0];
      assert (before + [line] + after)[1..] == before[1..] + [line] + after;
      assert (before + after)[1..] == before[1..] + after;
      ShortRemoteLineSkipped(before[1..], line, after);
    }
  }

  /** Once a port line has been seen, later lines do not change the result. */
  lemma {:induction false} FirstPortIgnoresLater(lines: seq<string>, later: seq<string>)
    requires FirstPort(lines) != []
    ensures FirstPort(lines + later) == FirstPort(lines)
    decreases |lines|
  {
    assert lines != [];
    if !IsPortLine(lines[0]) {
      assert (lines + later)[1..] == lines[1..] + later;
      FirstPortIgnoresLater(lines[1..], later);
    }
  }

  /** For an encoded text, the port is the result of the scan over the text's lines. */
  lemma ExtractPortOfEncoding(text: string)
    requires IsByteString(text)
    ensures ExtractPort(Base64.Encode(StringToBytes(text))) == FirstPort(Split(text, '\n'))
  {
    Base64.DecodeEncode(StringToBytes(text));
  }

  /** The directive line holds only bytes and no line feed. */
  lemma DirectiveIsOneLine(host: string, port: string)
    requires NoSpace(host) && NoSpace(port) && IsByteString(host) && IsByteString(port)
    ensures IsByteString(Directive(host, port)) && '\n' !in Directive(host, port)
  {
    var line := Directive(host, port);
    forall i | 0 <= i < |line| ensures line[i] as int < 256 && line[i] != '\n' {
      if i >= |RemotePrefix| + |host| + 1 {
        assert line[i] == port[i - |RemotePrefix| - |host| - 1];
      } else if |RemotePrefix| <= i < |RemotePrefix| + |host| {
        assert line[i] == host[i - |RemotePrefix|];
      }
    }
  }

  /** Lines around a directive, none with a line feed, all byte-sized. */
  lemma DirectiveLines(before: seq<string>, host: string, port: string, after: seq<string>)
    requires NoSpace(host) && NoSpace(port) && IsByteString(host) && IsByteString(port)
    requires forall i :: 0 <= i < |before| ==> '\n' !in before[i] && IsByteString(before[i])
    requires forall i :: 0 <= i < |after| ==> '\n' !in after[i] && IsByteString(after[i])
    ensures var lines := before + [Directive(host, port)] + after;
      forall i :: 0 <= i < |lines| ==> '\n' !in lines[i] && IsByteString(lines[i])
  {
    DirectiveIsOneLine(host, port);
  }

  /** The scan finds the port of a directive preceded by no other port line. */
  lemma {:induction false} FirstPortOfDirective(before: seq<string>, host: string, port: string, after: seq<string>)
    requires host != [] && NoSpace(host) && port != [] && NoSpace(port)
    requires NoPortLineBefore(before, |before|)
    ensures FirstPort(before + [Directive(host, port)] + after) == port
    decreases |before|
  {
    var lines := before + [Directive(host, port)] + after;
    if before == [] {
      DirectivePort(host, port);
      assert lines[0] == Directive(host, port);
    } else {
      assert lines[0] == before[0] && !IsPortLine(before[0]);
      assert lines[1..] == before[1..] + [Directive(host, port)] + after;
      FirstPortOfDirective(before[1..], host, port, after);
    }
  }

  /**
   * End to end: a configuration whose lines hold a `remote <host> <port>`
   * directive, preceded by no other port line, encoded with base64, yields
   * exactly that port.
   */
  lemma PortOfEncodedConfig(before: seq<string>, host: string, port: string, after: seq<string>)
    requires host != [] && NoSpace(host) && port != [] && NoSpace(port)
    requires IsByteString(host) && IsByteString(port)
    requires forall i :: 0 <= i < |before| ==> '\n' !in before[i] && IsByteString(before[i])
    requires forall i :: 0 <= i < |after| ==> '\n' !in after[i] && IsByteString(after[i])
    requires NoPortLineBefore(before, |before|)
    ensures var text := Join(before + [Directive(host, port)] + after, '\n');
      IsByteString(text) && ExtractPort(Base64.Encode(StringToBytes(text))) == port
  {
    var lines := before + [Directive(host, port)] + after;
    var text := Join(lines, '\n');
    DirectiveLines(before, host, port, after);
    JoinBytes(lines, '\n');
    SplitJoin(lines, '\n');
    ExtractPortOfEncoding(text);
    FirstPortOfDirective(before, host, port, after);
  }

  /** Joining byte-sized lines with a byte-sized separator gives a byte-sized text. */
  lemma {:induction false} JoinBytes(lines: seq<string>, sep: char)
    requires sep as int < 256
    requires forall i :: 0 <= i < |lines| ==> IsByteString(lines[i])
    ensures IsByteString(Join(lines, sep))
    decreases |lines|
  {
    if |lines| > 1 {
      JoinBytes(lines[1..], sep);
      assert IsByteString(lines[0]);
    }
  }
}
