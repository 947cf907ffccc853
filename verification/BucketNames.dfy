/** S3_validate_bucket_name of src/general.c. */
module BucketNames {
  import opened Strings
  import opened Status

  datatype UriStyle = VirtualHost | Path

  function MaxLength(style: UriStyle): nat { if style == VirtualHost then 63 else 255 }

  predicate NameChar(c: char) { IsAlpha(c) || IsDigit(c) || c == '_' || c == '-' || c == '.' }

  ghost predicate LetterOrDigit(c: char) { 'a' <= c <= 'z' || 'A' <= c <= 'Z' || '0' <= c <= '9' }

  /** A bucket name the library accepts, stated without reference to a scan and with the characters written
      out: of all letters, digits, "_", "-" and "."; the first one a letter or a digit; in virtual-host style
      without "_", and without a dot and a dash side by side; and not made of digits and dots alone. */
  ghost predicate ValidName(name: string, style: UriStyle) {
    && 3 <= |name| <= (if style == VirtualHost then 63 else 255)
    && LetterOrDigit(name[0])
    && (forall i :: 0 <= i < |name| ==> LetterOrDigit(name[i]) || name[i] in ['_', '-', '.'])
    && (style == VirtualHost ==>
          && '_' !in name
          && forall i :: 0 < i < |name| ==> [name[i - 1], name[i]] != ".-" && [name[i - 1], name[i]] != "-.")
    && ('.' in name ==> exists i :: 0 <= i < |name| && name[i] != '.' && !('0' <= name[i] <= '9'))
  }

  /** A dot and a dash side by side. */
  predicate Clash(a: char, b: char) { (a == '.' && b == '-') || (a == '-' && b == '.') }

  /** Dots, and nothing but digits between them. */
  ghost predicate DotQuad(name: string) {
    '.' in name && forall i :: 0 <= i < |name| ==> IsDigit(name[i]) || name[i] == '.'
  }

  /** What is wrong with a name at position i, when nothing is wrong before it. */
  function Fault(name: string, i: nat, style: UriStyle): S3Status
    requires i < |name|
  {
    var c := name[i];
    if i == MaxLength(style) then InvalidBucketNameTooLong
    else if IsAlpha(c) || IsDigit(c) then OK
    else if i == 0 then InvalidBucketNameFirstCharacter
    else if !NameChar(c) || (style == VirtualHost && c == '_') then InvalidBucketNameCharacter
    else if style == VirtualHost && Clash(name[i - 1], c) then InvalidBucketNameCharacterSequence
    else OK
  }

  /** What each fault is, with the characters written out. */
  lemma FaultMeans(name: string, i: nat, style: UriStyle)
    requires i < |name|
    ensures var c, max := name[i], if style == VirtualHost then 63 else 255;
      var fault := Fault(name, i, style);
      && (fault == InvalidBucketNameTooLong <==> i == max)
      && (fault == InvalidBucketNameFirstCharacter <==> i == 0 && !LetterOrDigit(c))
      && (fault == InvalidBucketNameCharacter <==>
            0 < i != max && !LetterOrDigit(c) && (c !in ['_', '-', '.'] || (c == '_' && style == VirtualHost)))
      && (fault == InvalidBucketNameCharacterSequence <==>
            && 0 < i != max && style == VirtualHost
            && ((c == '-' && name[i - 1] == '.') || (c == '.' && name[i - 1] == '-')))
      && fault in {OK, InvalidBucketNameTooLong, InvalidBucketNameFirstCharacter, InvalidBucketNameCharacter,
                   InvalidBucketNameCharacterSequence}
  {}

  /** The first fault decides; a name without one may still be too short or all digits and dots. */
  ghost predicate Verdict(name: string, style: UriStyle, status: S3Status) {
    || (exists i :: 0 <= i < |name| && Fault(name, i, style) == status != OK
                    && forall j :: 0 <= j < i ==> Fault(name, j, style) == OK)
    || ((forall j :: 0 <= j < |name| ==> Fault(name, j, style) == OK)
        && status == if |name| < 3 then InvalidBucketNameTooShort
                     else if DotQuad(name) then InvalidBucketNameDotQuadNotation else OK)
  }

  method ValidateBucketName(bucketName: string, uriStyle: UriStyle) returns (status: S3Status)
    ensures Verdict(bucketName, uriStyle, status)
    ensures status == OK <==> ValidName(bucketName, uriStyle)
  {
    var virtualHostStyle := uriStyle == VirtualHost;
    var len, maxlen := 0, if virtualHostStyle then 63 else 255;
    var hasDot, hasNonDigit := false, false;
    while len < |bucketName|
      invariant len <= |bucketName| && len <= maxlen
      invariant forall j :: 0 <= j < len ==> Fault(bucketName, j, uriStyle) == OK
      invariant hasDot <==> '.' in bucketName[..len]
      invariant hasNonDigit <==> exists j :: 0 <= j < len && !IsDigit(bucketName[j]) && bucketName[j] != '.'
    {
      var c := bucketName[len];
      ghost var fault := Fault(bucketName, len, uriStyle);
      if len == maxlen {
        FaultDecides(bucketName, uriStyle, len);
        return InvalidBucketNameTooLong;
      } else if IsAlpha(c) {
        hasNonDigit := true;
      } else if IsDigit(c) {
      } else if len == 0 {
        FaultDecides(bucketName, uriStyle, len);
        return InvalidBucketNameFirstCharacter;
      } else if c == '_' {
        if virtualHostStyle {
          FaultDecides(bucketName, uriStyle, len);
          return InvalidBucketNameCharacter;
        }
        hasNonDigit := true;
      } else if c == '-' {
        if virtualHostStyle && bucketName[len - 1] == '.' {
          FaultDecides(bucketName, uriStyle, len);
          return InvalidBucketNameCharacterSequence;
        }
        hasNonDigit := true;
      } else if c == '.' {
        if virtualHostStyle && bucketName[len - 1] == '-' {
          FaultDecides(bucketName, uriStyle, len);
          return InvalidBucketNameCharacterSequence;
        }
        hasDot := true;
      } else {
        FaultDecides(bucketName, uriStyle, len);
        return InvalidBucketNameCharacter;
      }
      assert bucketName[..len + 1] == bucketName[..len] + [c];
      len := len + 1;
    }
    assert bucketName[..len] == bucketName;
    FaultlessNames(bucketName, uriStyle);
    if len < 3 {
      return InvalidBucketNameTooShort;
    }
    if hasDot && !hasNonDigit {
      return InvalidBucketNameDotQuadNotation;
    }
    return OK;
  }

  lemma FaultDecides(name: string, style: UriStyle, i: nat)
    requires i < |name| && Fault(name, i, style) != OK
    requires forall j :: 0 <= j < i ==> Fault(name, j, style) == OK
    ensures Verdict(name, style, Fault(name, i, style)) && !ValidName(name, style)
  {}

  /** Names without a fault, up to length and digits, are the valid ones. */
  lemma FaultlessNames(name: string, style: UriStyle)
    requires forall j :: 0 <= j < |name| ==> Fault(name, j, style) == OK
    ensures ValidName(name, style) <==> |name| >= 3 && !DotQuad(name)
  {
    FaultlessLength(name, style);
    NotDotQuad(name);
    hide DotQuad;
    if name != [] {
      assert Fault(name, 0, style) == OK;
      forall i | 0 <= i < |name| ensures NameChar(name[i]) {
        assert Fault(name, i, style) == OK;
      }
      if style == VirtualHost {
        forall i | 0 <= i < |name| ensures name[i] != '_' && (i > 0 ==> !Clash(name[i - 1], name[i])) {
          assert Fault(name, i, style) == OK;
        }
      }
    }
  }

  lemma NotDotQuad(name: string)
    ensures !DotQuad(name) <==>
      ('.' in name ==> exists i :: 0 <= i < |name| && name[i] != '.' && !('0' <= name[i] <= '9'))
  {}

  lemma FaultlessLength(name: string, style: UriStyle)
    requires forall j :: 0 <= j < |name| ==> Fault(name, j, style) == OK
    ensures |name| <= MaxLength(style)
  {
    var i := MaxLength(style);
    var fault := if i < |name| then Fault(name, i, style) else OK;
    assert fault == OK;
  }
}
