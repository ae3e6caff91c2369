/** Naming of club logo objects in the object store. */
module ClubsMinio {
  import opened Base
  import opened Decimal

  /** Python truthiness of an optional size: none and zero are false. */
  predicate HasSize(size: Option<int>) {
    size.Some? && size.value != 0
  }

  /** The object name of a logo: the configured prefix, the file id, and for
      a (truthy) size a `-` and `str` of the size: the part after the file id
      is the one canonical decimal that reads back as the size. */
  function GetClubLogoObjectName(clubLogosPrefix: string, logoFileId: string, size: Option<int>): (r: string)
    ensures |r| >= |clubLogosPrefix + logoFileId|
    ensures r[..|clubLogosPrefix + logoFileId|] == clubLogosPrefix + logoFileId
    ensures r == clubLogosPrefix + logoFileId <==> !HasSize(size)
    ensures HasSize(size) ==>
              var rest := r[|clubLogosPrefix + logoFileId|..];
              |rest| >= 2 && rest[0] == '-' && IsIntLiteral(rest[1..]) && IsCanonicalInt(rest[1..]) &&
              ParseInt(rest[1..]) == size.value
  {
    var sizePostfix := if HasSize(size) then "-" + IntToString(size.value) else "";
    var r := clubLogosPrefix + logoFileId + sizePostfix;
    assert r[..|clubLogosPrefix + logoFileId|] == clubLogosPrefix + logoFileId;
    assert r[|clubLogosPrefix + logoFileId|..] == sizePostfix;
    assert HasSize(size) ==> sizePostfix[1..] == IntToString(size.value);
    r
  }

  /** For one file id, two truthy sizes name the same object only when they
      are equal, and a sized name never equals the unsized one. */
  lemma {:induction false} ObjectNamesDistinct(prefix: string, logoFileId: string, s1: Option<int>, s2: Option<int>)
    requires HasSize(s1)
    ensures GetClubLogoObjectName(prefix, logoFileId, s1) != GetClubLogoObjectName(prefix, logoFileId, None)
    ensures (HasSize(s2) && GetClubLogoObjectName(prefix, logoFileId, s1) == GetClubLogoObjectName(prefix, logoFileId, s2))
              ==> s1 == s2
  {
    var n := |prefix + logoFileId|;
    var a := GetClubLogoObjectName(prefix, logoFileId, s1);
    var b := GetClubLogoObjectName(prefix, logoFileId, s2);
    if HasSize(s2) && a == b {
      assert a[n..][1..] == b[n..][1..];
    }
  }

  /** The size part is Python's `f"-{size}"`: any canonical decimal that
      reads as the size is exactly the one the name carries. */
  lemma ObjectNameSuffixIsStr(prefix: string, logoFileId: string, size: Option<int>, digits: string)
    requires HasSize(size) && IsCanonicalInt(digits) && IsIntLiteral(digits) && ParseInt(digits) == size.value
    ensures GetClubLogoObjectName(prefix, logoFileId, size) == prefix + logoFileId + "-" + digits
  {
    CanonicalIntRoundTrip(digits);
  }
}
