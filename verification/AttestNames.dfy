/**
  Attestation file names as they are typed: the stick's id, the time of the flash
  with dashes for colons, and the extension.
*/
module AttestNames {
  import opened Wrappers
  import opened Strings
  import opened ListingScanner
  import opened Alphabets
  import opened Attest

  lemma DashColonsAppend(a: string, b: string)
    ensures DashColons(a + b) == DashColons(a) + DashColons(b)
  {
  }

  lemma NoColonsStay(s: string)
    requires ':' !in s
    ensures DashColons(s) == s
  {
    assert forall i :: 0 <= i < |s| ==> s[i] in s;
  }

  /** The time `date`T`h`:`m`:`s`Z stands in the name as `date`T`h`-`m`-`s`Z. */
  lemma TimestampInName(device: string, guid: string, date: string, h: string, m: string, s: string)
    requires ':' !in date && ':' !in h && ':' !in m && ':' !in s
    ensures FileName(device, guid, date + "T" + h + ":" + m + ":" + s + "Z") ==
            (if guid == "" then "unknown-" + Sanitize(device) else Lower(guid)) +
            "-" + (date + "T" + h + "-" + m + "-" + s + "Z") + ".json"
  {
    var a, b, c := date + "T" + h, m, s + "Z";
    assert date + "T" + h + ":" + m + ":" + s + "Z" == a + ":" + b + ":" + c;
    assert date + "T" + h + "-" + m + "-" + s + "Z" == a + "-" + b + "-" + c;
    DashColonsAppend(a + ":" + b + ":", c);
    DashColonsAppend(a + ":" + b, ":");
    DashColonsAppend(a + ":", b);
    DashColonsAppend(a, ":");
    NoColonsStay(a);
    NoColonsStay(b);
    NoColonsStay(c);
    assert DashColons(":") == "-";
  }

  /** Letters, digits, dashes and underscores of the device stay, and anything else becomes an underscore. */
  lemma SanitizeSpelled(s: string, i: nat)
    requires i < |s|
    ensures |Sanitize(s)| == |s|
    ensures Sanitize(s)[i] ==
            if s[i] in DIGITS || s[i] in LOWER || s[i] in UPPER || s[i] == '-' || s[i] == '_' then s[i] else '_'
  {
    hide DIGITS, LOWER, UPPER;
    Members(s[i]);
  }
}
