/** The declared field lists of `createConverters`: which columns are switches,
    year counts, free numbers, flags, agreement scales and multi-select
    factors, in the order the source registers them. */
module Schema {
  import opened Wrappers
  import opened Converters

  datatype Schema = Schema(
    switches: seq<SwitchSpec>,
    years: seq<string>,
    floats: seq<string>,
    flags: seq<string>,
    agrees: seq<string>,
    factors: seq<string>)

  /** All names a schema gives to single-column converters, in registration
      order. */
  function StaticFields(s: Schema): seq<string>
  {
    s.years + s.floats + s.flags + s.agrees
  }

  /** The naming discipline the survey's field lists follow: no factor and no
      switch name holds an underscore (so a generated `factor_token` name
      determines its factor and never equals a switch name), and no switch
      shares its name with a single-column converter. */
  predicate WellFormed(s: Schema) {
    && (forall i :: 0 <= i < |s.factors| ==> '_' !in s.factors[i])
    && (forall i :: 0 <= i < |s.switches| ==> '_' !in s.switches[i].field)
    && (forall i :: 0 <= i < |s.switches| ==> s.switches[i].field !in StaticFields(s))
  }

  // ---------------------------------------------------------------------------
  // the survey's lists (clean.js:17-202)
  // ---------------------------------------------------------------------------

  const CompanySize := SwitchSpec("CompanySize", map[
    "Fewer than 10 employees" := 0.5,
    "10 to 19 employees" := 1.0,
    "20 to 99 employees" := 1.5,
    "100 to 499 employees" := 2.0,
    "500 to 999 employees" := 2.5,
    "1,000 to 4,999 employees" := 3.0,
    "5,000 to 9,999 employees" := 3.5,
    "10,000 or more employees" := 4.0
  ], Some(0.0))

  const LastNewJob := SwitchSpec("LastNewJob", map[
    "Less than a year ago" := 0.0,
    "Between 1 and 2 years ago" := 1.0,
    "Between 2 and 4 years ago" := 2.0,
    "More than 4 years ago" := 3.0
  ], Some(4.0))

  const Overpaid := SwitchSpec("Overpaid", map[
    "Greatly underpaid" := -2.0,
    "Somewhat underpaid" := -1.0,
    "Neither underpaid nor overpaid" := 0.0,
    "Somewhat overpaid" := 1.0,
    "Greatly overpaid" := 2.0,
    "NA" := 0.0
  ], None)

  const EducationImportant := SwitchSpec("EducationImportant", map[
    "Not at all important" := -2.0,
    "Not very important" := -1.0,
    "Somewhat important" := 0.0,
    "Important" := 1.0,
    "Very important" := 2.0,
    "NA" := 0.0
  ], None)

  const CheckInCode := SwitchSpec("CheckInCode", map[
    "Multiple times a day" := 1.0,
    "Once a day" := 2.0,
    "A few times a week" := 3.0,
    "A few times a month" := 4.0,
    "Just a few times over the year" := 5.0,
    "Never" := 6.0
  ], None)

  const StackOverflowDescribes := SwitchSpec("StackOverflowDescribes", map[
    "I'd never heard of Stack Overflow before today" := 1.0,
    "I've heard of Stack Overflow, but have never visited" := 2.0,
    "I've visited Stack Overflow, but haven't logged in/created an account" := 3.0,
    "I have a login for Stack Overflow, but haven't created a CV or Developer Story" := 4.0,
    "I have created a CV or Developer Story on Stack Overflow" := 5.0
  ], None)

  const HighestEducationParents := SwitchSpec("HighestEducationParents", map[
    "No education" := 0.0,
    "Primary/elementary school" := 1.0,
    "High school" := 2.0,
    "Some college/university study, no bachelor's degree" := 3.0,
    "A professional degree" := 4.0,
    "A bachelor's degree" := 5.0,
    "A master's degree" := 6.0,
    "A doctoral degree" := 7.0
  ], Some(0.0))

  /** The frequency table shared by the eight "in the last three months"
      questions. */
  const ThreeMonthsTable: map<string, real> := map[
    "At least once each day" := 1.0,
    "At least once each week" := 2.0,
    "Several times" := 3.0,
    "Once or twice" := 4.0,
    "Haven't done at all" := 5.0
  ]

  const ThreeMonthsFields: seq<string> := [
    "StackOverflowFoundAnswer",
    "StackOverflowCopiedCode",
    "StackOverflowJobListing",
    "StackOverflowCompanyPage",
    "StackOverflowJobSearch",
    "StackOverflowNewQuestion",
    "StackOverflowAnswer",
    "StackOverflowMetaChat"
  ]

  const SurveySwitches: seq<SwitchSpec> :=
    [CompanySize, LastNewJob, Overpaid, EducationImportant, CheckInCode,
     StackOverflowDescribes, HighestEducationParents]
    + seq(|ThreeMonthsFields|, i requires 0 <= i < |ThreeMonthsFields| =>
          SwitchSpec(ThreeMonthsFields[i], ThreeMonthsTable, None))

  const YearFields: seq<string> := ["YearsProgram", "YearsCodedJob", "YearsCodedJobPast"]

  const FloatFields: seq<string> := [
    "CareerSatisfaction",
    "JobSatisfaction",
    "HoursPerWeek",
    "StackOverflowSatisfaction",
    "Salary",
    "ExpectedSalary"
  ]

  const FlagFields: seq<string> := ["ClickyKeys"]

  const AgreeFields: seq<string> := [
    "ProblemSolving",
    "BuildingThings",
    "LearningNewTech",
    "JobSecurity",
    "DiversityImportant",
    "AnnoyingUI",
    "FriendsDevelopers",
    "RightWrongWay",
    "UnderstandComputers",
    "SeriousWork",
    "InvestTimeTools",
    "WorkPayCare",
    "KinshipDevelopers",
    "ChallengeMyself",
    "CompetePeers",
    "ChangeWorld",
    "ShipIt",
    "OtherPeoplesCode",
    "ProjectManagement",
    "EnjoyDebugging",
    "InTheZone",
    "DifficultCommunication",
    "CollaborateRemote",
    "StackOverflowAdsRelevant",
    "StackOverflowAdsDistracting",
    "StackOverflowModeration",
    "StackOverflowCommunity",
    "StackOverflowHelpful",
    "StackOverflowBetter",
    "StackOverflowWhatDo",
    "StackOverflowMakeMoney",
    "SurveyLong",
    "QuestionsInteresting",
    "QuestionsConfusing",
    "InterestedAnswers"
  ]

  const FactorFields: seq<string> := [
    "TabsSpaces",
    "Professional",
    "ProgramHobby",
    "Country",
    "University",
    "EmploymentStatus",
    "FormalEducation",
    "MajorUndergrad",
    "HomeRemote",
    "CompanyType",
    "DeveloperType",
    "WebDeveloperType",
    "MobileDeveloperType",
    "NonDeveloperType",
    "PronounceGIF",
    "JobSeekingStatus",
    "ImportantBenefits",
    "JobProfile",
    "ResumePrompted",
    "LearnedHiring",
    "EducationTypes",
    "SelfTaughtTypes",
    "WorkStart",
    "HaveWorkedLanguage",
    "WantWorkLanguage",
    "HaveWorkedFramework",
    "WantWorkFramework",
    "HaveWorkedDatabase",
    "WantWorkDatabase",
    "HaveWorkedPlatform",
    "WantWorkPlatform",
    "IDE",
    "AuditoryEnvironment",
    "Methodology",
    "VersionControl",
    "MetricAssess",
    "StackOverflowDevices",
    "Gender",
    "Race"
  ]

  const SurveySchema := Schema(SurveySwitches, YearFields, FloatFields, FlagFields, AgreeFields, FactorFields)

  /** "20 to 99 employees" codes as 1.5; an unlisted company size falls back
      to 0 and an unlisted last-job answer to the "more than 4 years" code 4. */
  lemma SurveySwitchExamples(rec: Record)
    ensures ApplySwitch(CompanySize, map["CompanySize" := "20 to 99 employees"]) == Success(1.5)
    ensures ApplySwitch(CompanySize, map["CompanySize" := "1,000 to 4,999 employees"]) == Success(3.0)
    ensures "CompanySize" !in rec ==> ApplySwitch(CompanySize, rec) == Success(0.0)
    ensures "LastNewJob" in rec && rec["LastNewJob"] == "Sometime" ==> ApplySwitch(LastNewJob, rec) == Success(4.0)
    ensures ApplySwitch(Overpaid, map["Overpaid" := "Paid fairly"]) == Failure(UnknownOption(None))
  {
  }

  // ---------------------------------------------------------------------------
  // the survey's lists follow the naming discipline
  // ---------------------------------------------------------------------------

  /** No name in `xs[lo..hi]` holds an underscore. */
  predicate Plain(xs: seq<string>, lo: nat, hi: nat)
    requires lo <= hi <= |xs|
  {
    forall i :: lo <= i < hi ==> '_' !in xs[i]
  }

  // The factor list is checked eight names at a time, which keeps each
  // obligation small.
  lemma FactorsPlain0() ensures Plain(FactorFields, 0, 8) {}
  lemma FactorsPlain1() ensures Plain(FactorFields, 8, 16) {}
  lemma FactorsPlain2() ensures Plain(FactorFields, 16, 24) {}
  lemma FactorsPlain3() ensures Plain(FactorFields, 24, 32) {}
  lemma FactorsPlain4() ensures Plain(FactorFields, 32, 39) {}

  lemma ThreeMonthsPlain()
    ensures Plain(ThreeMonthsFields, 0, 8)
  {
  }

  /** No name of `xs` equals a name of `ys[lo..hi]`. */
  predicate Apart(xs: seq<string>, ys: seq<string>, lo: nat, hi: nat)
    requires lo <= hi <= |ys|
  {
    forall i, j :: 0 <= i < |xs| && lo <= j < hi ==> xs[i] != ys[j]
  }

  // The disjointness checks are split the same way.
  lemma ThreeMonthsApart0() ensures Apart(ThreeMonthsFields, YearFields + FloatFields + FlagFields, 0, 5) {}
  lemma ThreeMonthsApart1() ensures Apart(ThreeMonthsFields, YearFields + FloatFields + FlagFields, 5, 10) {}
  lemma ThreeMonthsApart2() ensures Apart(ThreeMonthsFields, AgreeFields, 0, 6) {}
  lemma ThreeMonthsApart3() ensures Apart(ThreeMonthsFields, AgreeFields, 6, 12) {}
  lemma ThreeMonthsApart4() ensures Apart(ThreeMonthsFields, AgreeFields, 12, 18) {}
  lemma ThreeMonthsApart5() ensures Apart(ThreeMonthsFields, AgreeFields, 18, 24) {}
  lemma ThreeMonthsApart6() ensures Apart(ThreeMonthsFields, AgreeFields, 24, 30) {}
  lemma ThreeMonthsApart7() ensures Apart(ThreeMonthsFields, AgreeFields, 30, 35) {}

  /** The names of the seven switches with their own tables. */
  const NamedSwitchFields: seq<string> := [
    "CompanySize", "LastNewJob", "Overpaid", "EducationImportant", "CheckInCode",
    "StackOverflowDescribes", "HighestEducationParents"
  ]

  lemma NamedSwitchesPlain()
    ensures Plain(NamedSwitchFields, 0, 7)
  {
  }

  lemma NamedSwitchesApart0() ensures Apart(NamedSwitchFields, YearFields + FloatFields + FlagFields, 0, 5) {}
  lemma NamedSwitchesApart1() ensures Apart(NamedSwitchFields, YearFields + FloatFields + FlagFields, 5, 10) {}
  lemma NamedSwitchesApart2() ensures Apart(NamedSwitchFields, AgreeFields, 0, 6) {}
  lemma NamedSwitchesApart3() ensures Apart(NamedSwitchFields, AgreeFields, 6, 12) {}
  lemma NamedSwitchesApart4() ensures Apart(NamedSwitchFields, AgreeFields, 12, 18) {}
  lemma NamedSwitchesApart5() ensures Apart(NamedSwitchFields, AgreeFields, 18, 24) {}
  lemma NamedSwitchesApart6() ensures Apart(NamedSwitchFields, AgreeFields, 24, 30) {}
  lemma NamedSwitchesApart7() ensures Apart(NamedSwitchFields, AgreeFields, 30, 35) {}

  lemma NamedSwitchFieldsMatch()
    ensures forall i :: 0 <= i < 7 ==> SurveySwitches[i].field == NamedSwitchFields[i]
  {
  }

  /** The survey's field lists obey the naming discipline. */
  lemma SurveySchemaWellFormed()
    ensures WellFormed(SurveySchema)
  {
    FactorsPlain0();
    FactorsPlain1();
    FactorsPlain2();
    FactorsPlain3();
    FactorsPlain4();
    ThreeMonthsPlain();
    ThreeMonthsApart0();
    ThreeMonthsApart1();
    ThreeMonthsApart2();
    ThreeMonthsApart3();
    ThreeMonthsApart4();
    ThreeMonthsApart5();
    ThreeMonthsApart6();
    ThreeMonthsApart7();
    NamedSwitchesPlain();
    NamedSwitchesApart0();
    NamedSwitchesApart1();
    NamedSwitchesApart2();
    NamedSwitchesApart3();
    NamedSwitchesApart4();
    NamedSwitchesApart5();
    NamedSwitchesApart6();
    NamedSwitchesApart7();
    NamedSwitchFieldsMatch();
    var statics := StaticFields(SurveySchema);
    assert statics == (YearFields + FloatFields + FlagFields) + AgreeFields;
    forall i | 0 <= i < |SurveySwitches|
      ensures SurveySwitches[i].field !in statics
    {
      var f := SurveySwitches[i].field;
      var names := if i < 7 then NamedSwitchFields else ThreeMonthsFields;
      var k := if i < 7 then i else i - 7;
      assert f == names[k];
      forall j | 0 <= j < |statics|
        ensures statics[j] != f
      {
        if j >= 10 {
          assert statics[j] == AgreeFields[j - 10];
        }
      }
    }
  }
}
