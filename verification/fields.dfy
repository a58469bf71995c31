/** The custom serializer fields of api/fields.py: the data-URI handling
    of `Base64ImageField.to_internal_value` up to the file name it builds,
    and `Hex2NameColor.to_representation`. */
module Fields {
  import opened Wrappers
  import opened Text

  const DataImagePrefix: string := "data:image"
  const Base64Separator: string := ";base64,"
  const TempName: string := "temp."

  /** The value a client sent for the field: a string, or anything else. */
  datatype Data = Str(s: string) | NotString

  /** What goes on to the parent image field: the input unchanged, or a
      named upload holding the (still encoded) payload. */
  datatype ImageData = Passed(data: Data) | Upload(name: string, encoded: string)

  /** The tuple unpack of the split raised ValueError. */
  datatype FieldError = UnpackError

  /** `p` occurs in `s` at `i` and nowhere else. */
  ghost predicate OnlyOccurrence(s: string, p: string, i: int) {
    OccursAt(s, p, i) && forall j :: OccursAt(s, p, j) ==> j == i
  }

  /** `ext` is the text after the last '/' of `header`. */
  predicate IsExtensionOf(ext: string, header: string) {
    && |ext| <= |header|
    && header[|header| - |ext|..] == ext
    && !Contains(ext, "/")
    && (|ext| == |header| || header[|header| - |ext| - 1] == '/')
  }

  /** `Base64ImageField.to_internal_value` before the parent class runs:
      a string starting with "data:image" is split on ";base64,", which
      must occur exactly once; the extension is what follows the header's
      last '/', and the upload is named "temp." plus that extension. */
  function ToInternalValue(data: Data): (r: Result<ImageData, FieldError>)
    ensures !(data.Str? && StartsWith(data.s, DataImagePrefix)) ==> r == Success(Passed(data))
    ensures data.Str? && StartsWith(data.s, DataImagePrefix) ==>
              (r.Failure? <==> !exists i :: OnlyOccurrence(data.s, Base64Separator, i))
    ensures r.Success? && r.value.Upload? ==>
              && data.Str? && StartsWith(data.s, DataImagePrefix)
              && exists i :: OnlyOccurrence(data.s, Base64Separator, i)
                   && r.value.encoded == data.s[i + |Base64Separator|..]
                   && |r.value.name| >= |TempName| && r.value.name[..|TempName|] == TempName
                   && IsExtensionOf(r.value.name[|TempName|..], data.s[..i])
  {
    if data.Str? && StartsWith(data.s, DataImagePrefix) then
      var parts := Split(data.s, Base64Separator);
      SplitInTwo(data.s);
      if |parts| != 2 then Failure(UnpackError)
      else
        var pieces := Split(parts[0], "/");
        LastPieceIsExtension(parts[0]);
        var ext := pieces[|pieces| - 1];
        assert (TempName + ext)[|TempName|..] == ext;
        Success(Upload(TempName + ext, parts[1]))
    else Success(Passed(data))
  }

  /** An occurrence in a suffix is an occurrence in the whole string. */
  lemma OccursInSuffix(s: string, p: string, m: nat, j: int)
    requires m <= |s| && OccursAt(s[m..], p, j)
    ensures OccursAt(s, p, m + j)
  {
    assert s[m..][j..j + |p|] == s[m + j..m + j + |p|];
  }

  /** The separator's ';' appears only at its start, so two occurrences of
      it never overlap. */
  lemma SeparatorNoOverlap(s: string, i: int, j: int)
    requires OccursAt(s, Base64Separator, i) && OccursAt(s, Base64Separator, j) && i < j
    ensures j >= i + |Base64Separator|
  {
    var sep := Base64Separator;
    assert s[j] == ';' by {
      assert s[j..j + |sep|][0] == sep[0];
    }
    forall k | i < k < i + |sep| ensures s[k] != ';' {
      assert s[i..i + |sep|][k - i] == s[k];
    }
  }

  /** Splitting on ";base64," gives two pieces exactly when the separator
      occurs once; the pieces are then the text before and after it. */
  lemma SplitInTwo(s: string)
    ensures |Split(s, Base64Separator)| == 2 <==> exists i :: OnlyOccurrence(s, Base64Separator, i)
    ensures forall i :: OnlyOccurrence(s, Base64Separator, i) ==>
              Split(s, Base64Separator) == [s[..i], s[i + |Base64Separator|..]]
  {
    var sep := Base64Separator;
    match FindFirst(s, sep)
    case None =>
      assert forall i :: !OnlyOccurrence(s, sep, i);
    case Some(i) =>
      var rest := s[i + |sep|..];
      assert Split(s, sep) == [s[..i]] + Split(rest, sep);
      match FindFirst(rest, sep)
      case None =>
        forall j | OccursAt(s, sep, j) ensures j == i {
          if j > i {
            SeparatorNoOverlap(s, i, j);
            assert rest[j - i - |sep|..j - i] == s[j..j + |sep|];
            assert OccursAt(rest, sep, j - i - |sep|);
          }
        }
        assert OnlyOccurrence(s, sep, i);
        assert Split(rest, sep) == [rest];
      case Some(k) =>
        OccursInSuffix(s, sep, i + |sep|, k);
        assert |Split(s, sep)| >= 3;
        forall m | OnlyOccurrence(s, sep, m) ensures false {
        }
  }

  /** Joining keeps the last piece at the end, after a separator when
      there is more than one piece. */
  lemma {:induction false} JoinLast(parts: seq<string>, sep: string)
    requires |parts| >= 2
    ensures Join(parts, sep) == Join(parts[..|parts| - 1], sep) + sep + parts[|parts| - 1]
  {
    if |parts| > 2 {
      JoinLast(parts[1..], sep);
      assert parts[1..][..|parts| - 2] == parts[..|parts| - 1][1..];
    }
  }

  /** The last piece of `header.split('/')` is the text after its last '/'. */
  lemma LastPieceIsExtension(header: string)
    ensures IsExtensionOf(Split(header, "/")[|Split(header, "/")| - 1], header)
  {
    var pieces := Split(header, "/");
    var ext := pieces[|pieces| - 1];
    assert !Contains(ext, "/") by {
      SplitPiecesFree(header, "/");
    }
    if |pieces| >= 2 {
      var init := Join(pieces[..|pieces| - 1], "/");
      assert header == init + "/" + ext by {
        JoinSplit(header, "/");
        JoinLast(pieces, "/");
      }
      assert header[|header| - |ext|..] == ext;
      assert header[|header| - |ext| - 1] == '/';
    } else {
      assert header == ext by {
        JoinSplit(header, "/");
      }
    }
  }

  /** `Hex2NameColor.to_representation`: the stored color is shown as it is. */
  function ColorToRepresentation(value: string): (r: string)
    ensures r == value
  {
    value
  }
}
