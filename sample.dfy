/**
 * A worked document for the clause buckets of app/services/whatif.py: a
 * three-sentence agreement whose sentences each land in their own bucket
 * while the payment, liability and ip buckets stay empty. Absence of an
 * alternative is shown word by word (Strings.WordsMiss), so that no proof
 * has to search the whole sentence.
 */
module SampleAgreement {
  import opened Strings
  import opened WhatIf

  /** The sentences of a sample agreement, word by word. */
  const SAMPLE_TERMINATION := ["This", "Agreement", "shall", "terminate", "upon", "30", "days", "written", "notice."]
  const SAMPLE_CONFIDENTIALITY := ["Confidential", "information", "must", "not", "be", "disclosed."]
  const SAMPLE_JURISDICTION := ["Governing", "law", "is", "the", "State", "of", "Delaware."]

  /** The same words, lower-cased. */
  const LOWERED_TERMINATION := ["this", "agreement", "shall", "terminate", "upon", "30", "days", "written", "notice."]
  const LOWERED_CONFIDENTIALITY := ["confidential", "information", "must", "not", "be", "disclosed."]
  const LOWERED_JURISDICTION := ["governing", "law", "is", "the", "state", "of", "delaware."]

  lemma SampleTerminationLowered()
    ensures Lower(Join(SAMPLE_TERMINATION, " ")) == Join(LOWERED_TERMINATION, " ")
  {
    LowerJoin(SAMPLE_TERMINATION, LOWERED_TERMINATION);
  }

  lemma SampleConfidentialityLowered()
    ensures Lower(Join(SAMPLE_CONFIDENTIALITY, " ")) == Join(LOWERED_CONFIDENTIALITY, " ")
  {
    LowerJoin(SAMPLE_CONFIDENTIALITY, LOWERED_CONFIDENTIALITY);
  }

  lemma SampleJurisdictionLowered()
    ensures Lower(Join(SAMPLE_JURISDICTION, " ")) == Join(LOWERED_JURISDICTION, " ")
  {
    LowerJoin(SAMPLE_JURISDICTION, LOWERED_JURISDICTION);
  }

  /** "confidential" holds every character of "fee" but not "fee" itself. */
  lemma ConfidentialLacksFee()
    ensures !Contains("confidential", "fee")
  {
    WordMisses("conf", "fee", 1, 1);
    WordMisses("dential", "fee", 0, 0);
    AbsentAround("conf", 'i', "dential", "fee");
    assert "confidential" == "conf" + ['i'] + "dential";
  }

  /** "confidential" does not hold "licence". */
  lemma ConfidentialLacksLicence()
    ensures !Contains("confidential", "licence")
  {
    WordMisses("confi", "licence", 0, 0);
    WordMisses("ential", "licence", 0, 0);
    AbsentAround("confi", 'd', "ential", "licence");
    assert "confidential" == "confi" + ['d'] + "ential";
  }

  /** The first termination word, "this", holds neither "fee" nor "licence". */
  lemma TerminationFirstWord()
    ensures |LOWERED_TERMINATION| > 1
    ensures !Contains(LOWERED_TERMINATION[0], "fee") && !Contains(LOWERED_TERMINATION[0], "licence")
  {
    WordMisses("this", "fee", 0, 0);
    WordMisses("this", "licence", 0, 0);
  }

  /** The word-level tests on the termination sentence, one alternative at a time. */
  lemma TerminationWordsPayment()
    ensures WordsFail(LOWERED_TERMINATION, "payment", 0, 0, 0)
  {}

  lemma TerminationWordsFee()
    ensures WordsFail(LOWERED_TERMINATION, "fee", 0, 1, 1)
  {}

  lemma TerminationWordsCompensation()
    ensures WordsFail(LOWERED_TERMINATION, "compensation", 0, 2, 0)
  {}

  lemma TerminationWordsInvoice()
    ensures WordsFail(LOWERED_TERMINATION, "invoice", 2, 5, 0)
  {}

  lemma TerminationWordsAmount()
    ensures WordsFail(LOWERED_TERMINATION, "amount", 0, 3, 0)
  {}

  lemma TerminationWordsConsideration()
    ensures WordsFail(LOWERED_TERMINATION, "consideration", 0, 0, 0)
  {}

  lemma TerminationWordsPrice()
    ensures WordsFail(LOWERED_TERMINATION, "price", 0, 0, 0)
  {}

  lemma TerminationWordsRemuneration()
    ensures WordsFail(LOWERED_TERMINATION, "remuneration", 0, 0, 0)
  {}

  lemma TerminationWordsLiabilit()
    ensures WordsFail(LOWERED_TERMINATION, "liabilit", 0, 3, 0)
  {}

  lemma TerminationWordsIndemnif()
    ensures WordsFail(LOWERED_TERMINATION, "indemnif", 2, 4, 0)
  {}

  lemma TerminationWordsDamages()
    ensures WordsFail(LOWERED_TERMINATION, "damages", 0, 2, 0)
  {}

  lemma TerminationWordsHold()
    ensures WordsFail(LOWERED_TERMINATION, "hold", 0, 1, 0)
  {}

  lemma TerminationWordsLimitation()
    ensures WordsFail(LOWERED_TERMINATION, "limitation", 0, 2, 0)
  {}

  lemma TerminationWordsCap()
    ensures WordsFail(LOWERED_TERMINATION, "cap", 0, 2, 0)
  {}

  lemma TerminationWordsIntellectual()
    ensures WordsFail(LOWERED_TERMINATION, "intellectual", 0, 9, 0)
  {}

  lemma TerminationWordsIp()
    ensures WordsFail(LOWERED_TERMINATION, "ip", 0, 1, 0)
  {}

  lemma TerminationWordsLicense()
    ensures WordsFail(LOWERED_TERMINATION, "license", 4, 5, 0)
  {}

  lemma TerminationWordsLicence()
    ensures WordsFail(LOWERED_TERMINATION, "licence", 0, 4, 1)
  {}

  lemma TerminationWordsOwnership()
    ensures WordsFail(LOWERED_TERMINATION, "ownership", 0, 1, 0)
  {}

  lemma TerminationWordsAssign()
    ensures WordsFail(LOWERED_TERMINATION, "assign", 0, 1, 0)
  {}

  lemma TerminationNotPayment()
    ensures !Matches(Join(SAMPLE_TERMINATION, " "), Payment)
  {
    TerminationFirstWord();
    TerminationWordsPayment();
    TerminationWordsFee();
    TerminationWordsCompensation();
    TerminationWordsInvoice();
    TerminationWordsAmount();
    TerminationWordsConsideration();
    TerminationWordsPrice();
    TerminationWordsRemuneration();
    PaymentMissed(LOWERED_TERMINATION);
    SampleTerminationLowered();
  }

  lemma TerminationNotLiability()
    ensures !Matches(Join(SAMPLE_TERMINATION, " "), Liability)
  {
    TerminationWordsLiabilit();
    TerminationWordsIndemnif();
    TerminationWordsDamages();
    TerminationWordsHold();
    TerminationWordsLimitation();
    TerminationWordsCap();
    LiabilityMissed(LOWERED_TERMINATION);
    SampleTerminationLowered();
  }

  lemma TerminationNotIp()
    ensures !Matches(Join(SAMPLE_TERMINATION, " "), Ip)
  {
    TerminationFirstWord();
    TerminationWordsIntellectual();
    TerminationWordsIp();
    TerminationWordsLicense();
    TerminationWordsLicence();
    TerminationWordsOwnership();
    TerminationWordsAssign();
    IpMissed(LOWERED_TERMINATION);
    SampleTerminationLowered();
  }

  /** The termination sample sentence matches none of the payment, liability and ip patterns. */
  lemma SampleTerminationMisses()
    ensures !Matches(Join(SAMPLE_TERMINATION, " "), Payment)
    ensures !Matches(Join(SAMPLE_TERMINATION, " "), Liability)
    ensures !Matches(Join(SAMPLE_TERMINATION, " "), Ip)
  {
    TerminationNotPayment();
    TerminationNotLiability();
    TerminationNotIp();
  }

  /** The first confidentiality word, "confidential", holds neither "fee" nor "licence". */
  lemma ConfidentialityFirstWord()
    ensures |LOWERED_CONFIDENTIALITY| > 1
    ensures !Contains(LOWERED_CONFIDENTIALITY[0], "fee") && !Contains(LOWERED_CONFIDENTIALITY[0], "licence")
  {
    ConfidentialLacksFee();
    ConfidentialLacksLicence();
  }

  /** The word-level tests on the confidentiality sentence, one alternative at a time. */
  lemma ConfidentialityWordsPayment()
    ensures WordsFail(LOWERED_CONFIDENTIALITY, "payment", 0, 0, 0)
  {}

  lemma ConfidentialityWordsFee()
    ensures WordsFail(LOWERED_CONFIDENTIALITY, "fee", 0, 1, 1)
  {}

  lemma ConfidentialityWordsCompensation()
    ensures WordsFail(LOWERED_CONFIDENTIALITY, "compensation", 0, 2, 0)
  {}

  lemma ConfidentialityWordsInvoice()
    ensures WordsFail(LOWERED_CONFIDENTIALITY, "invoice", 2, 5, 0)
  {}

  lemma ConfidentialityWordsAmount()
    ensures WordsFail(LOWERED_CONFIDENTIALITY, "amount", 0, 3, 0)
  {}

  lemma ConfidentialityWordsConsideration()
    ensures WordsFail(LOWERED_CONFIDENTIALITY, "consideration", 0, 0, 0)
  {}

  lemma ConfidentialityWordsPrice()
    ensures WordsFail(LOWERED_CONFIDENTIALITY, "price", 0, 0, 0)
  {}

  lemma ConfidentialityWordsRemuneration()
    ensures WordsFail(LOWERED_CONFIDENTIALITY, "remuneration", 0, 0, 0)
  {}

  lemma ConfidentialityWordsLiabilit()
    ensures WordsFail(LOWERED_CONFIDENTIALITY, "liabilit", 0, 3, 0)
  {}

  lemma ConfidentialityWordsIndemnif()
    ensures WordsFail(LOWERED_CONFIDENTIALITY, "indemnif", 2, 4, 0)
  {}

  lemma ConfidentialityWordsDamages()
    ensures WordsFail(LOWERED_CONFIDENTIALITY, "damages", 0, 2, 0)
  {}

  lemma ConfidentialityWordsHold()
    ensures WordsFail(LOWERED_CONFIDENTIALITY, "hold", 0, 1, 0)
  {}

  lemma ConfidentialityWordsLimitation()
    ensures WordsFail(LOWERED_CONFIDENTIALITY, "limitation", 0, 2, 0)
  {}

  lemma ConfidentialityWordsCap()
    ensures WordsFail(LOWERED_CONFIDENTIALITY, "cap", 0, 2, 0)
  {}

  lemma ConfidentialityWordsIntellectual()
    ensures WordsFail(LOWERED_CONFIDENTIALITY, "intellectual", 0, 9, 0)
  {}

  lemma ConfidentialityWordsIp()
    ensures WordsFail(LOWERED_CONFIDENTIALITY, "ip", 0, 1, 0)
  {}

  lemma ConfidentialityWordsLicense()
    ensures WordsFail(LOWERED_CONFIDENTIALITY, "license", 4, 5, 0)
  {}

  lemma ConfidentialityWordsLicence()
    ensures WordsFail(LOWERED_CONFIDENTIALITY, "licence", 0, 4, 1)
  {}

  lemma ConfidentialityWordsOwnership()
    ensures WordsFail(LOWERED_CONFIDENTIALITY, "ownership", 0, 1, 0)
  {}

  lemma ConfidentialityWordsAssign()
    ensures WordsFail(LOWERED_CONFIDENTIALITY, "assign", 0, 1, 0)
  {}

  lemma ConfidentialityNotPayment()
    ensures !Matches(Join(SAMPLE_CONFIDENTIALITY, " "), Payment)
  {
    ConfidentialityFirstWord();
    ConfidentialityWordsPayment();
    ConfidentialityWordsFee();
    ConfidentialityWordsCompensation();
    ConfidentialityWordsInvoice();
    ConfidentialityWordsAmount();
    ConfidentialityWordsConsideration();
    ConfidentialityWordsPrice();
    ConfidentialityWordsRemuneration();
    PaymentMissed(LOWERED_CONFIDENTIALITY);
    SampleConfidentialityLowered();
  }

  lemma ConfidentialityNotLiability()
    ensures !Matches(Join(SAMPLE_CONFIDENTIALITY, " "), Liability)
  {
    ConfidentialityWordsLiabilit();
    ConfidentialityWordsIndemnif();
    ConfidentialityWordsDamages();
    ConfidentialityWordsHold();
    ConfidentialityWordsLimitation();
    ConfidentialityWordsCap();
    LiabilityMissed(LOWERED_CONFIDENTIALITY);
    SampleConfidentialityLowered();
  }

  lemma ConfidentialityNotIp()
    ensures !Matches(Join(SAMPLE_CONFIDENTIALITY, " "), Ip)
  {
    ConfidentialityFirstWord();
    ConfidentialityWordsIntellectual();
    ConfidentialityWordsIp();
    ConfidentialityWordsLicense();
    ConfidentialityWordsLicence();
    ConfidentialityWordsOwnership();
    ConfidentialityWordsAssign();
    IpMissed(LOWERED_CONFIDENTIALITY);
    SampleConfidentialityLowered();
  }

  /** The confidentiality sample sentence matches none of the payment, liability and ip patterns. */
  lemma SampleConfidentialityMisses()
    ensures !Matches(Join(SAMPLE_CONFIDENTIALITY, " "), Payment)
    ensures !Matches(Join(SAMPLE_CONFIDENTIALITY, " "), Liability)
    ensures !Matches(Join(SAMPLE_CONFIDENTIALITY, " "), Ip)
  {
    ConfidentialityNotPayment();
    ConfidentialityNotLiability();
    ConfidentialityNotIp();
  }

  /** The first jurisdiction word, "governing", holds neither "fee" nor "licence". */
  lemma JurisdictionFirstWord()
    ensures |LOWERED_JURISDICTION| > 1
    ensures !Contains(LOWERED_JURISDICTION[0], "fee") && !Contains(LOWERED_JURISDICTION[0], "licence")
  {
    WordMisses("governing", "fee", 0, 0);
    WordMisses("governing", "licence", 0, 0);
  }

  /** The word-level tests on the jurisdiction sentence, one alternative at a time. */
  lemma JurisdictionWordsPayment()
    ensures WordsFail(LOWERED_JURISDICTION, "payment", 0, 0, 0)
  {}

  lemma JurisdictionWordsFee()
    ensures WordsFail(LOWERED_JURISDICTION, "fee", 0, 1, 1)
  {}

  lemma JurisdictionWordsCompensation()
    ensures WordsFail(LOWERED_JURISDICTION, "compensation", 0, 2, 0)
  {}

  lemma JurisdictionWordsInvoice()
    ensures WordsFail(LOWERED_JURISDICTION, "invoice", 2, 5, 0)
  {}

  lemma JurisdictionWordsAmount()
    ensures WordsFail(LOWERED_JURISDICTION, "amount", 0, 3, 0)
  {}

  lemma JurisdictionWordsConsideration()
    ensures WordsFail(LOWERED_JURISDICTION, "consideration", 0, 0, 0)
  {}

  lemma JurisdictionWordsPrice()
    ensures WordsFail(LOWERED_JURISDICTION, "price", 0, 0, 0)
  {}

  lemma JurisdictionWordsRemuneration()
    ensures WordsFail(LOWERED_JURISDICTION, "remuneration", 0, 0, 0)
  {}

  lemma JurisdictionWordsLiabilit()
    ensures WordsFail(LOWERED_JURISDICTION, "liabilit", 0, 3, 0)
  {}

  lemma JurisdictionWordsIndemnif()
    ensures WordsFail(LOWERED_JURISDICTION, "indemnif", 2, 4, 0)
  {}

  lemma JurisdictionWordsDamages()
    ensures WordsFail(LOWERED_JURISDICTION, "damages", 0, 2, 0)
  {}

  lemma JurisdictionWordsHold()
    ensures WordsFail(LOWERED_JURISDICTION, "hold", 0, 1, 0)
  {}

  lemma JurisdictionWordsLimitation()
    ensures WordsFail(LOWERED_JURISDICTION, "limitation", 0, 2, 0)
  {}

  lemma JurisdictionWordsCap()
    ensures WordsFail(LOWERED_JURISDICTION, "cap", 0, 2, 0)
  {}

  lemma JurisdictionWordsIntellectual()
    ensures WordsFail(LOWERED_JURISDICTION, "intellectual", 0, 9, 0)
  {}

  lemma JurisdictionWordsIp()
    ensures WordsFail(LOWERED_JURISDICTION, "ip", 0, 1, 0)
  {}

  lemma JurisdictionWordsLicense()
    ensures WordsFail(LOWERED_JURISDICTION, "license", 4, 5, 0)
  {}

  lemma JurisdictionWordsLicence()
    ensures WordsFail(LOWERED_JURISDICTION, "licence", 0, 4, 1)
  {}

  lemma JurisdictionWordsOwnership()
    ensures WordsFail(LOWERED_JURISDICTION, "ownership", 0, 1, 0)
  {}

  lemma JurisdictionWordsAssign()
    ensures WordsFail(LOWERED_JURISDICTION, "assign", 0, 1, 0)
  {}

  lemma JurisdictionNotPayment()
    ensures !Matches(Join(SAMPLE_JURISDICTION, " "), Payment)
  {
    JurisdictionFirstWord();
    JurisdictionWordsPayment();
    JurisdictionWordsFee();
    JurisdictionWordsCompensation();
    JurisdictionWordsInvoice();
    JurisdictionWordsAmount();
    JurisdictionWordsConsideration();
    JurisdictionWordsPrice();
    JurisdictionWordsRemuneration();
    PaymentMissed(LOWERED_JURISDICTION);
    SampleJurisdictionLowered();
  }

  lemma JurisdictionNotLiability()
    ensures !Matches(Join(SAMPLE_JURISDICTION, " "), Liability)
  {
    JurisdictionWordsLiabilit();
    JurisdictionWordsIndemnif();
    JurisdictionWordsDamages();
    JurisdictionWordsHold();
    JurisdictionWordsLimitation();
    JurisdictionWordsCap();
    LiabilityMissed(LOWERED_JURISDICTION);
    SampleJurisdictionLowered();
  }

  lemma JurisdictionNotIp()
    ensures !Matches(Join(SAMPLE_JURISDICTION, " "), Ip)
  {
    JurisdictionFirstWord();
    JurisdictionWordsIntellectual();
    JurisdictionWordsIp();
    JurisdictionWordsLicense();
    JurisdictionWordsLicence();
    JurisdictionWordsOwnership();
    JurisdictionWordsAssign();
    IpMissed(LOWERED_JURISDICTION);
    SampleJurisdictionLowered();
  }

  /** The jurisdiction sample sentence matches none of the payment, liability and ip patterns. */
  lemma SampleJurisdictionMisses()
    ensures !Matches(Join(SAMPLE_JURISDICTION, " "), Payment)
    ensures !Matches(Join(SAMPLE_JURISDICTION, " "), Liability)
    ensures !Matches(Join(SAMPLE_JURISDICTION, " "), Ip)
  {
    JurisdictionNotPayment();
    JurisdictionNotLiability();
    JurisdictionNotIp();
  }

  /**
   * Three sentences that each match one of the termination, confidentiality
   * and jurisdiction patterns and none of the payment, liability and ip
   * patterns are filed under their own bucket and leave the other three empty.
   */
  lemma BucketsFromMatches(s1: string, s2: string, s3: string)
    requires Matches(s1, Termination) && Matches(s2, Confidentiality) && Matches(s3, Jurisdiction)
    requires !Matches(s1, Payment) && !Matches(s2, Payment) && !Matches(s3, Payment)
    requires !Matches(s1, Liability) && !Matches(s2, Liability) && !Matches(s3, Liability)
    requires !Matches(s1, Ip) && !Matches(s2, Ip) && !Matches(s3, Ip)
    ensures var sents := [s1, s2, s3];
      && s1 in BucketSentences(sents, Termination)
      && s2 in BucketSentences(sents, Confidentiality)
      && s3 in BucketSentences(sents, Jurisdiction)
      && BucketSentences(sents, Payment) == []
      && BucketSentences(sents, Liability) == []
      && BucketSentences(sents, Ip) == []
  {
    var sents := [s1, s2, s3];
    BucketMembers(sents, Termination, s1);
    BucketMembers(sents, Confidentiality, s2);
    BucketMembers(sents, Jurisdiction, s3);
    EmptyBucketOfThree(s1, s2, s3, Payment);
    EmptyBucketOfThree(s1, s2, s3, Liability);
    EmptyBucketOfThree(s1, s2, s3, Ip);
  }

  /** A bucket none of three sentences matches is empty. */
  lemma EmptyBucketOfThree(s1: string, s2: string, s3: string, b: Bucket)
    requires !Matches(s1, b) && !Matches(s2, b) && !Matches(s3, b)
    ensures BucketSentences([s1, s2, s3], b) == []
  {
    BucketEmptyIff([s1, s2, s3], b);
  }

  /**
   * The sample agreement "This Agreement shall terminate upon 30 days written
   * notice. Confidential information must not be disclosed. Governing law is
   * the State of Delaware." files its first sentence under termination, its
   * second under confidentiality and its third under jurisdiction, and leaves
   * payment, liability and ip empty.
   */
  lemma SampleAgreementBuckets()
    ensures var s1, s2, s3 := Join(SAMPLE_TERMINATION, " "), Join(SAMPLE_CONFIDENTIALITY, " "), Join(SAMPLE_JURISDICTION, " ");
      var sents := [s1, s2, s3];
      && s1 in BucketSentences(sents, Termination)
      && s2 in BucketSentences(sents, Confidentiality)
      && s3 in BucketSentences(sents, Jurisdiction)
      && BucketSentences(sents, Payment) == []
      && BucketSentences(sents, Liability) == []
      && BucketSentences(sents, Ip) == []
  {
    SampleTerminationMatches();
    SampleConfidentialityMatches();
    SampleJurisdictionMatches();
    SampleTerminationMisses();
    SampleConfidentialityMisses();
    SampleJurisdictionMisses();
    BucketsFromMatches(Join(SAMPLE_TERMINATION, " "), Join(SAMPLE_CONFIDENTIALITY, " "), Join(SAMPLE_JURISDICTION, " "));
  }

  /** The termination sample sentence matches the termination pattern, through "terminate". */
  lemma SampleTerminationMatches()
    ensures Matches(Join(SAMPLE_TERMINATION, " "), Termination)
  {
    assert OccursAt(LOWERED_TERMINATION[3], "terminat", 0);
    OccursInJoin(LOWERED_TERMINATION, " ", 3, "terminat", 0);
    assert "terminat" in Hints(Termination);
    SampleTerminationLowered();
  }

  /** The confidentiality sample sentence matches the confidentiality pattern, through "Confidential". */
  lemma SampleConfidentialityMatches()
    ensures Matches(Join(SAMPLE_CONFIDENTIALITY, " "), Confidentiality)
  {
    assert OccursAt(LOWERED_CONFIDENTIALITY[0], "confidential", 0);
    OccursInJoin(LOWERED_CONFIDENTIALITY, " ", 0, "confidential", 0);
    assert "confidential" in Hints(Confidentiality);
    SampleConfidentialityLowered();
  }

  /** The jurisdiction sample sentence matches the jurisdiction pattern, through "Governing law". */
  lemma SampleJurisdictionMatches()
    ensures Matches(Join(SAMPLE_JURISDICTION, " "), Jurisdiction)
  {
    var rest := Join(LOWERED_JURISDICTION[2..], " ");
    assert Join(LOWERED_JURISDICTION, " ") == "governing law" + (" " + rest);
    OccursInPrefix("governing law", " " + rest, "governing law", 0);
    ContainsAt(Join(LOWERED_JURISDICTION, " "), "governing law", 0);
    assert "governing law" in Hints(Jurisdiction);
    SampleJurisdictionLowered();
  }
}
