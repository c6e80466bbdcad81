/** The response header block: a 4096-byte buffer that is appended to, and never partially (src/http.c:142-151, 498-594). */
module Headers {
  import opened Bytes
  import opened Requests

  datatype HeaderField = HeaderField(key: seq<byte>, value: seq<byte>)

  const COLON_SPACE: seq<byte> := [58, 32]

  function PrintField(f: HeaderField): seq<byte> { f.key + COLON_SPACE + f.value + CRLF }

  function PrintFields(fs: seq<HeaderField>): seq<byte>
  {
    if fs == [] then [] else PrintField(fs[0]) + PrintFields(fs[1..])
  }

  lemma {:induction false} PrintFieldsAppend(a: seq<HeaderField>, b: seq<HeaderField>)
    ensures PrintFields(a + b) == PrintFields(a) + PrintFields(b)
  {
    if a == [] {
      assert a + b == b;
    } else {
      assert (a + b)[0] == a[0] && (a + b)[1..] == a[1..] + b;
      PrintFieldsAppend(a[1..], b);
    }
  }

  lemma PrintFieldsSnoc(fs: seq<HeaderField>, f: HeaderField)
    ensures PrintFields(fs + [f]) == PrintFields(fs) + PrintField(f)
  {
    PrintFieldsAppend(fs, [f]);
    assert [f][1..] == [];
    assert PrintFields([f]) == PrintField(f) + [];
  }

  class HeaderBlock {
    const buf: array<byte>
    var len: nat

    /** The fields that were added, and whether the empty line that ends the block is there. */
    ghost var fields: seq<HeaderField>
    ghost var ended: bool

    ghost predicate Valid()
      reads this, buf
    {
      && buf.Length == HTTP_BUFSZ
      && len < HTTP_BUFSZ
      && buf[..len] == PrintFields(fields) + if ended then CRLF else []
    }

    function Contents(): seq<byte>
      requires len <= buf.Length
      reads this, buf
    {
      buf[..len]
    }

    constructor ()
      ensures Valid() && fields == [] && !ended && fresh(buf)
    {
      buf := new byte[HTTP_BUFSZ];
      len, fields, ended := 0, [], false;
    }

    /** `kitserv_api_reset_headers`, and the wiping of headers before an error response. */
    method Wipe()
      requires Valid()
      modifies this
      ensures Valid() && fields == [] && !ended
    {
      len, fields, ended := 0, [], false;
    }

    /** `str_append`: what `vsnprintf` prints is cut off at the end of the buffer, where it also puts a NUL. */
    method Append(text: seq<byte>) returns (ok: bool)
      requires buf.Length == HTTP_BUFSZ && len < HTTP_BUFSZ
      modifies this`len, buf
      ensures ok <==> old(len) + |text| < HTTP_BUFSZ
      ensures len < HTTP_BUFSZ && len == if ok then old(len) + |text| else old(len)
      ensures buf[..len] == old(buf[..len]) + if ok then text else []
      ensures buf[..old(len)] == old(buf[..len])
    {
      ghost var before := buf[..len];
      var room := HTTP_BUFSZ - len;
      var n := if |text| < room then |text| else room - 1;
      forall k | 0 <= k < n {
        buf[len + k] := text[k];
      }
      buf[len + n] := NUL;
      if |text| >= room {
        assert buf[..len] == before;
        return false;
      }
      assert buf[..len + n] == before + text;
      len := len + n;
      return true;
    }

    /**
     * `http_header_add_ap`: key, value and end of line are added together or not at all. A line that leaves no room for
     * vsnprintf's NUL does not fit.
     */
    method Add(f: HeaderField) returns (ok: bool)
      requires Valid() && !ended
      modifies this, buf
      ensures Valid() && !ended
      ensures ok <==> old(len) + |PrintField(f)| < HTTP_BUFSZ
      ensures fields == if ok then old(fields) + [f] else old(fields)
      ensures len == if ok then old(len) + |PrintField(f)| else old(len)
    {
      hide PrintFields;
      var before := len;
      ghost var block := buf[..len];
      ok := AppendParts(f.key + COLON_SPACE, f.value, CRLF);
      if !ok {
        len := before;
        return false;
      }
      PrintFieldsSnoc(fields, f);
      assert buf[..len] == PrintFields(fields) + PrintField(f);
      fields := fields + [f];
    }

    static lemma Regroup(x: seq<byte>, y: seq<byte>, z: seq<byte>)
      ensures (x + y) + z == x + (y + z)
    {
    }

    /** Three texts one after the other, as far as they fit; what was there before stays. */
    method AppendParts(a: seq<byte>, b: seq<byte>, c: seq<byte>) returns (ok: bool)
      requires buf.Length == HTTP_BUFSZ && len < HTTP_BUFSZ
      modifies this`len, buf
      ensures ok <==> old(len) + |a| + |b| + |c| < HTTP_BUFSZ
      ensures old(len) <= len < HTTP_BUFSZ && (ok ==> len == old(len) + |a| + |b| + |c|)
      ensures ok ==> buf[..len] == old(buf[..len]) + (a + b + c)
      ensures buf[..old(len)] == old(buf[..len])
    {
      ghost var block, n0 := buf[..len], len;
      ok := Append(a);
      if !ok {
        return;
      }
      ghost var n1 := len;
      assert buf[..n1] == block + a;
      ok := Append(b);
      assert buf[..n0] == buf[..n1][..n0];
      if !ok {
        return;
      }
      ghost var n2 := len;
      Regroup(block, a, b);
      ok := Append(c);
      assert buf[..n0] == buf[..n2][..n0];
      if ok {
        Regroup(block, a + b, c);
      }
    }

    /** The empty line. */
    method Finish() returns (ok: bool)
      requires Valid() && !ended
      modifies this, buf
      ensures Valid() && ended == ok && fields == old(fields)
      ensures ok <==> old(len) + 2 < HTTP_BUFSZ
    {
      ok := Append(CRLF);
      ended := ok;
    }
  }
}
