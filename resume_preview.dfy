// Model of the resume body rendered by src/components/ResumePreview.js:
// which blocks, lines and links appear for given form data, in which order,
// with which fallbacks. Markup, styling and icons are not modelled; the
// rendered page is abstracted as a Document value.

module ResumePreview {

  datatype Option<T> = None | Some(value: T)

  // ---------------------------------------------------------------------
  // Form data (the input)
  // ---------------------------------------------------------------------

  /** Personal details; an unset field is the empty string, which renders
      exactly like a missing one. */
  datatype PersonalInfo = PersonalInfo(
    fullName: string, jobTitle: string, email: string, phone: string,
    location: string, summary: string,
    linkedin: string, github: string, website: string)

  datatype Experience = Experience(
    position: string, company: string, startDate: string, endDate: string,
    current: bool, description: string, achievements: seq<string>)

  datatype Education = Education(
    degree: string, field: string, institution: string, startDate: string,
    endDate: string, current: bool, highlights: string)

  /** `kind` is the skill's free-form `type` field ("technical", "soft", ...). */
  datatype Skill = Skill(name: string, kind: string, level: int)

  datatype FormData = FormData(
    personalInfo: PersonalInfo, experience: seq<Experience>,
    education: seq<Education>, skills: seq<Skill>)

  // ---------------------------------------------------------------------
  // The rendered document (the output)
  // ---------------------------------------------------------------------

  /** A date shown as its month and year; the locale formatting itself is
      kept abstract, so the value records which raw date it shows. */
  datatype DateText = MonthYear(raw: string)

  /** What follows " - " in a date line. */
  datatype EndText = PresentText | EndDate(date: DateText) | NoEnd

  datatype DateRange = DateRange(start: DateText, end: EndText)

  datatype ContactKind = Email | Phone | Location

  datatype ContactLine = ContactLine(kind: ContactKind, text: string)

  datatype Header = Header(
    name: string, title: string, contacts: seq<ContactLine>, summary: Option<string>)

  datatype ExperienceEntry = ExperienceEntry(
    position: string, company: string, dates: Option<DateRange>,
    description: Option<string>, achievements: Option<seq<string>>)

  datatype EducationEntry = EducationEntry(
    heading: string, institution: string, dates: Option<DateRange>,
    highlights: Option<string>)

  /** A skill's name and how much of its bar is filled, in percent. */
  datatype SkillBar = SkillBar(name: string, fillPercent: real)

  datatype LinkKind = LinkedIn | GitHub | Portfolio

  datatype Link = Link(kind: LinkKind, href: string)

  datatype Section =
    | ExperienceSection(experiences: seq<ExperienceEntry>)
    | EducationSection(educations: seq<EducationEntry>)
    | SkillsSection(technical: seq<SkillBar>, soft: seq<SkillBar>)
    | LinksSection(links: seq<Link>)

  datatype Document = Document(header: Header, sections: seq<Section>)

  const NameFallback: string := "Your Name"
  const TitleFallback: string := "Professional Title"
  const TechnicalKind: string := "technical"
  const SoftKind: string := "soft"

  // ---------------------------------------------------------------------
  // Header
  // ---------------------------------------------------------------------

  /** A string field or its placeholder when it is empty. */
  function OrFallback(value: string, fallback: string): (r: string)
    ensures value != [] ==> r == value
    ensures value == [] ==> r == fallback
  {
    if value != [] then value else fallback
  }

  function ContactRank(k: ContactKind): nat {
    match k
    case Email => 0
    case Phone => 1
    case Location => 2
  }

  function ContactField(p: PersonalInfo, k: ContactKind): string {
    match k
    case Email => p.email
    case Phone => p.phone
    case Location => p.location
  }

  function ContactIf(k: ContactKind, value: string): (cs: seq<ContactLine>)
    ensures |cs| <= 1
    ensures forall c :: c in cs <==> value != [] && c == ContactLine(k, value)
  {
    if value != [] then [ContactLine(k, value)] else []
  }

  /** The contact row: email, phone and location, in that order, each only
      when set, each showing its own field. */
  function ContactLines(p: PersonalInfo): (cs: seq<ContactLine>)
    ensures forall c :: c in cs ==> c.text == ContactField(p, c.kind) && c.text != []
    ensures forall i, j :: 0 <= i < j < |cs| ==> ContactRank(cs[i].kind) < ContactRank(cs[j].kind)
  {
    var e, ph, l := ContactIf(Email, p.email), ContactIf(Phone, p.phone), ContactIf(Location, p.location);
    ContactsOrdered(e, ph, l);
    e + ph + l
  }

  lemma ContactsOrdered(a: seq<ContactLine>, b: seq<ContactLine>, c: seq<ContactLine>)
    requires |a| <= 1 && |b| <= 1 && |c| <= 1
    requires forall x :: x in a ==> ContactRank(x.kind) == 0
    requires forall x :: x in b ==> ContactRank(x.kind) == 1
    requires forall x :: x in c ==> ContactRank(x.kind) == 2
    ensures forall i, j :: 0 <= i < j < |a + b + c| ==> ContactRank((a + b + c)[i].kind) < ContactRank((a + b + c)[j].kind)
  {
    var s := a + b + c;
    forall k | 0 <= k < |s|
      ensures ContactRank(s[k].kind) == if k < |a| then 0 else if k < |a| + |b| then 1 else 2
    {
      if k < |a| {
        assert s[k] == a[k] && a[k] in a;
      } else if k < |a| + |b| {
        assert s[k] == b[k - |a|] && b[k - |a|] in b;
      } else {
        assert s[k] == c[k - |a| - |b|] && c[k - |a| - |b|] in c;
      }
    }
  }

  /** A contact line shows exactly when its field is set. */
  lemma ContactShownIffSet(p: PersonalInfo, k: ContactKind)
    ensures (exists c :: c in ContactLines(p) && c.kind == k) <==> ContactField(p, k) != []
  {
    var cs := ContactLines(p);
    if ContactField(p, k) != [] {
      var c := ContactLine(k, ContactField(p, k));
      match k
      case Email => assert c in ContactIf(Email, p.email);
      case Phone => assert c in ContactIf(Phone, p.phone);
      case Location => assert c in ContactIf(Location, p.location);
      assert c in cs;
    }
  }

  /** The header block: name and title with their placeholders, then the
      contact row, then the summary when there is one. */
  function RenderHeader(p: PersonalInfo): (h: Header)
    ensures h.name != [] && h.title != []
    ensures p.fullName != [] ==> h.name == p.fullName
    ensures p.jobTitle != [] ==> h.title == p.jobTitle
    ensures p.fullName == [] ==> h.name == NameFallback
    ensures p.jobTitle == [] ==> h.title == TitleFallback
    ensures h.contacts == ContactLines(p)
    ensures h.summary.Some? <==> p.summary != []
    ensures h.summary.Some? ==> h.summary.value == p.summary
  {
    Header(OrFallback(p.fullName, NameFallback), OrFallback(p.jobTitle, TitleFallback),
           ContactLines(p), if p.summary != [] then Some(p.summary) else None)
  }

  // ---------------------------------------------------------------------
  // Dates
  // ---------------------------------------------------------------------

  /** The date line of an experience or education entry: nothing without a
      start date; otherwise "start - end", where the end is "Present" for a
      current entry, the end date when one is set, and empty otherwise. */
  function DateLine(startDate: string, endDate: string, current: bool): (r: Option<DateRange>)
    ensures r.Some? <==> startDate != []
    ensures r.Some? ==> r.value.start == MonthYear(startDate)
    ensures r.Some? ==> (r.value.end.PresentText? <==> current)
    ensures r.Some? ==> (r.value.end.NoEnd? <==> !current && endDate == [])
    ensures r.Some? && r.value.end.EndDate? ==> r.value.end.date == MonthYear(endDate)
  {
    if startDate == [] then None
    else
      var end := if current then PresentText
                 else if endDate != [] then EndDate(MonthYear(endDate))
                 else NoEnd;
      Some(DateRange(MonthYear(startDate), end))
  }

  /** A current entry's end date is never shown. */
  lemma CurrentHidesEndDate(startDate: string, end1: string, end2: string)
    ensures DateLine(startDate, end1, true) == DateLine(startDate, end2, true)
  {
  }

  /** Without a start date neither the end date nor the current flag shows. */
  lemma NoStartNoDates(end1: string, end2: string, current1: bool, current2: bool)
    ensures DateLine([], end1, current1) == DateLine([], end2, current2) == None
  {
  }

  // ---------------------------------------------------------------------
  // Experience and education entries
  // ---------------------------------------------------------------------

  function TextIf(value: string): (r: Option<string>)
    ensures r.Some? <==> value != []
    ensures r.Some? ==> r.value == value
  {
    if value != [] then Some(value) else None
  }

  /** One experience entry: position, company, date line, and the
      description and achievement list when present. */
  function RenderExperience(e: Experience): (x: ExperienceEntry)
    ensures x.position == e.position && x.company == e.company
    ensures x.dates == DateLine(e.startDate, e.endDate, e.current)
    ensures x.description == TextIf(e.description)
    ensures x.achievements.Some? <==> |e.achievements| > 0
    ensures x.achievements.Some? ==> x.achievements.value == e.achievements
  {
    ExperienceEntry(e.position, e.company, DateLine(e.startDate, e.endDate, e.current),
                    TextIf(e.description),
                    if |e.achievements| > 0 then Some(e.achievements) else None)
  }

  /** The education heading: the degree, a space, then "in <field>" when a
      field of study is given. */
  function EducationHeading(degree: string, field: string): (h: string)
    ensures |h| > |degree| && h[..|degree|] == degree && h[|degree|] == ' '
    ensures field == [] <==> |h| == |degree| + 1
    ensures field != [] ==> h[|degree| + 1..] == "in " + field
  {
    var h := degree + " " + (if field != [] then "in " + field else "");
    assert h[..|degree|] == degree;
    assert field != [] ==> h[|degree| + 1..] == "in " + field;
    h
  }

  function RenderEducation(e: Education): (x: EducationEntry)
    ensures x.heading == EducationHeading(e.degree, e.field)
    ensures x.institution == e.institution
    ensures x.dates == DateLine(e.startDate, e.endDate, e.current)
    ensures x.highlights == TextIf(e.highlights)
  {
    EducationEntry(EducationHeading(e.degree, e.field), e.institution,
                   DateLine(e.startDate, e.endDate, e.current), TextIf(e.highlights))
  }

  // ---------------------------------------------------------------------
  // Skills
  // ---------------------------------------------------------------------

  /** The width of a skill bar: the level out of 5, as a percentage. */
  function BarFill(level: int): (pct: real)
    ensures pct == 20.0 * level as real
    ensures 0 <= level <= 5 ==> 0.0 <= pct <= 100.0
    ensures level == 5 <==> pct == 100.0
    ensures level == 0 <==> pct == 0.0
  {
    (level as real / 5.0) * 100.0
  }

  /** A higher level never draws a shorter bar. */
  lemma BarFillMonotone(l1: int, l2: int)
    requires l1 <= l2
    ensures BarFill(l1) <= BarFill(l2)
  {
  }

  /** The skills whose type is exactly `kind`, in their original order. */
  function SkillsOfKind(skills: seq<Skill>, kind: string): (r: seq<Skill>)
    ensures |r| <= |skills|
    ensures forall i :: 0 <= i < |r| ==> r[i].kind == kind
    ensures forall s :: s in r <==> s in skills && s.kind == kind
  {
    if skills == [] then []
    else (if skills[0].kind == kind then [skills[0]] else []) + SkillsOfKind(skills[1..], kind)
  }

  /** Filtering distributes over concatenation: order is kept. */
  lemma {:induction false} SkillsOfKindAppend(a: seq<Skill>, b: seq<Skill>, kind: string)
    ensures SkillsOfKind(a + b, kind) == SkillsOfKind(a, kind) + SkillsOfKind(b, kind)
    decreases |a|
  {
    if a != [] {
      assert (a + b)[1..] == a[1..] + b;
      SkillsOfKindAppend(a[1..], b, kind);
    } else {
      assert a + b == b;
    }
  }

  /** Skills that are neither technical nor soft. */
  function OtherSkills(skills: seq<Skill>): (r: seq<Skill>)
    ensures forall s :: s in r <==> s in skills && s.kind != TechnicalKind && s.kind != SoftKind
  {
    if skills == [] then []
    else (if skills[0].kind != TechnicalKind && skills[0].kind != SoftKind then [skills[0]] else [])
         + OtherSkills(skills[1..])
  }

  /** Every skill lands in exactly one of: the technical column, the soft
      column, or neither; the three groups add up to the whole list. */
  lemma {:induction false} SkillColumnsPartition(skills: seq<Skill>)
    ensures |SkillsOfKind(skills, TechnicalKind)| + |SkillsOfKind(skills, SoftKind)|
            + |OtherSkills(skills)| == |skills|
    decreases |skills|
  {
    if skills != [] {
      SkillColumnsPartition(skills[1..]);
    }
  }

  function SkillBars(skills: seq<Skill>): (bars: seq<SkillBar>)
    ensures |bars| == |skills|
    ensures forall i :: 0 <= i < |skills| ==>
      bars[i].name == skills[i].name && bars[i].fillPercent == BarFill(skills[i].level)
  {
    seq(|skills|, i requires 0 <= i < |skills| => SkillBar(skills[i].name, BarFill(skills[i].level)))
  }

  /** The two skill columns. */
  function RenderSkills(skills: seq<Skill>): (s: Section)
    ensures s.SkillsSection?
    ensures s.technical == SkillBars(SkillsOfKind(skills, TechnicalKind))
    ensures s.soft == SkillBars(SkillsOfKind(skills, SoftKind))
  {
    SkillsSection(SkillBars(SkillsOfKind(skills, TechnicalKind)),
                  SkillBars(SkillsOfKind(skills, SoftKind)))
  }

  // ---------------------------------------------------------------------
  // Links
  // ---------------------------------------------------------------------

  function LinkRank(k: LinkKind): nat {
    match k
    case LinkedIn => 0
    case GitHub => 1
    case Portfolio => 2
  }

  function LinkField(p: PersonalInfo, k: LinkKind): string {
    match k
    case LinkedIn => p.linkedin
    case GitHub => p.github
    case Portfolio => p.website
  }

  function LinkIf(k: LinkKind, href: string): (ls: seq<Link>)
    ensures |ls| <= 1
    ensures forall l :: l in ls <==> href != [] && l == Link(k, href)
  {
    if href != [] then [Link(k, href)] else []
  }

  predicate HasAnyLink(p: PersonalInfo) {
    p.linkedin != [] || p.github != [] || p.website != []
  }

  /** The link row: LinkedIn, GitHub, Portfolio, in that order, each only
      when its address is set, each pointing at that address. */
  function Links(p: PersonalInfo): (ls: seq<Link>)
    ensures forall l :: l in ls ==> l.href == LinkField(p, l.kind) && l.href != []
    ensures forall i, j :: 0 <= i < j < |ls| ==> LinkRank(ls[i].kind) < LinkRank(ls[j].kind)
    ensures ls != [] <==> HasAnyLink(p)
  {
    var li, gh, pf := LinkIf(LinkedIn, p.linkedin), LinkIf(GitHub, p.github), LinkIf(Portfolio, p.website);
    LinksOrdered(li, gh, pf);
    li + gh + pf
  }

  lemma LinksOrdered(a: seq<Link>, b: seq<Link>, c: seq<Link>)
    requires |a| <= 1 && |b| <= 1 && |c| <= 1
    requires forall x :: x in a ==> LinkRank(x.kind) == 0
    requires forall x :: x in b ==> LinkRank(x.kind) == 1
    requires forall x :: x in c ==> LinkRank(x.kind) == 2
    ensures forall i, j :: 0 <= i < j < |a + b + c| ==> LinkRank((a + b + c)[i].kind) < LinkRank((a + b + c)[j].kind)
  {
    var s := a + b + c;
    forall k | 0 <= k < |s|
      ensures LinkRank(s[k].kind) == if k < |a| then 0 else if k < |a| + |b| then 1 else 2
    {
      if k < |a| {
        assert s[k] == a[k] && a[k] in a;
      } else if k < |a| + |b| {
        assert s[k] == b[k - |a|] && b[k - |a|] in b;
      } else {
        assert s[k] == c[k - |a| - |b|] && c[k - |a| - |b|] in c;
      }
    }
  }

  /** A link shows exactly when its address is set. */
  lemma LinkShownIffSet(p: PersonalInfo, k: LinkKind)
    ensures (exists l :: l in Links(p) && l.kind == k) <==> LinkField(p, k) != []
  {
    if LinkField(p, k) != [] {
      var l := Link(k, LinkField(p, k));
      match k
      case LinkedIn => assert l in LinkIf(LinkedIn, p.linkedin);
      case GitHub => assert l in LinkIf(GitHub, p.github);
      case Portfolio => assert l in LinkIf(Portfolio, p.website);
      assert l in Links(p);
    }
  }

  // ---------------------------------------------------------------------
  // The whole document
  // ---------------------------------------------------------------------

  /** Blocks by position: 0 experience, 1 education, 2 skills, 3 links. */
  function SectionRank(s: Section): nat {
    match s
    case ExperienceSection(_) => 0
    case EducationSection(_) => 1
    case SkillsSection(_, _) => 2
    case LinksSection(_) => 3
  }

  function SectionIf(present: bool, s: Section): (ss: seq<Section>)
    ensures |ss| <= 1 && (ss != [] <==> present)
    ensures forall x :: x in ss <==> present && x == s
  {
    if present then [s] else []
  }

  /** Section ranks strictly increase along `ss`. */
  predicate InCanonicalOrder(ss: seq<Section>) {
    forall i, j :: 0 <= i < j < |ss| ==> SectionRank(ss[i]) < SectionRank(ss[j])
  }

  /** Some block of `ss` has rank `r`. */
  predicate HasSectionOfRank(ss: seq<Section>, r: nat) {
    exists x :: x in ss && SectionRank(x) == r
  }

  /** The rank of the block at index k of four optional blocks of ranks 0
      to 3 placed one after the other. */
  lemma RankAtIndex(a: seq<Section>, b: seq<Section>, c: seq<Section>, d: seq<Section>, k: nat)
    requires forall x :: x in a ==> SectionRank(x) == 0
    requires forall x :: x in b ==> SectionRank(x) == 1
    requires forall x :: x in c ==> SectionRank(x) == 2
    requires forall x :: x in d ==> SectionRank(x) == 3
    requires k < |a + b + c + d|
    ensures SectionRank((a + b + c + d)[k]) == if k < |a| then 0 else if k < |a| + |b| then 1
                                               else if k < |a| + |b| + |c| then 2 else 3
  {
    var s := a + b + c + d;
    if k < |a| {
      assert s[k] == a[k] && a[k] in a;
    } else if k < |a| + |b| {
      assert s[k] == b[k - |a|] && b[k - |a|] in b;
    } else if k < |a| + |b| + |c| {
      assert s[k] == c[k - |a| - |b|] && c[k - |a| - |b|] in c;
    } else {
      assert s[k] == d[k - |a| - |b| - |c|] && d[k - |a| - |b| - |c|] in d;
    }
  }

  /** Four optional blocks of ranks 0 to 3, one after the other, come out in
      canonical order, and a rank shows exactly when its block is there. */
  lemma FourBlocks(a: seq<Section>, b: seq<Section>, c: seq<Section>, d: seq<Section>)
    requires |a| <= 1 && |b| <= 1 && |c| <= 1 && |d| <= 1
    requires forall x :: x in a ==> SectionRank(x) == 0
    requires forall x :: x in b ==> SectionRank(x) == 1
    requires forall x :: x in c ==> SectionRank(x) == 2
    requires forall x :: x in d ==> SectionRank(x) == 3
    ensures InCanonicalOrder(a + b + c + d)
    ensures HasSectionOfRank(a + b + c + d, 0) <==> a != []
    ensures HasSectionOfRank(a + b + c + d, 1) <==> b != []
    ensures HasSectionOfRank(a + b + c + d, 2) <==> c != []
    ensures HasSectionOfRank(a + b + c + d, 3) <==> d != []
  {
    var s := a + b + c + d;
    forall i, j | 0 <= i < j < |s| ensures SectionRank(s[i]) < SectionRank(s[j]) {
      RankAtIndex(a, b, c, d, i);
      RankAtIndex(a, b, c, d, j);
    }
    forall r | 0 <= r < 4 && HasSectionOfRank(s, r)
      ensures r == 0 ==> a != []
      ensures r == 1 ==> b != []
      ensures r == 2 ==> c != []
      ensures r == 3 ==> d != []
    {
      var x :| x in s && SectionRank(x) == r;
      assert x in a || x in b || x in c || x in d;
    }
    if a != [] { assert a[0] in s; }
    if b != [] { assert b[0] in s; }
    if c != [] { assert c[0] in s; }
    if d != [] { assert d[0] in s; }
  }

  /** One rendered entry per experience, in order. */
  function ExperienceEntries(exps: seq<Experience>): (xs: seq<ExperienceEntry>)
    ensures |xs| == |exps|
    ensures forall k :: 0 <= k < |exps| ==> xs[k] == RenderExperience(exps[k])
  {
    seq(|exps|, i requires 0 <= i < |exps| => RenderExperience(exps[i]))
  }

  /** One rendered entry per education, in order. */
  function EducationEntries(edus: seq<Education>): (xs: seq<EducationEntry>)
    ensures |xs| == |edus|
    ensures forall k :: 0 <= k < |edus| ==> xs[k] == RenderEducation(edus[k])
  {
    seq(|edus|, i requires 0 <= i < |edus| => RenderEducation(edus[i]))
  }

  /** The blocks after the header: experience, education, skills, links,
      each only when it has content. */
  function Sections(fd: FormData): (ss: seq<Section>)
    ensures |ss| <= 4
    ensures ss == [] <==>
      |fd.experience| == 0 && |fd.education| == 0 && |fd.skills| == 0 && !HasAnyLink(fd.personalInfo)
  {
    SectionIf(|fd.experience| > 0, ExperienceSection(ExperienceEntries(fd.experience)))
    + SectionIf(|fd.education| > 0, EducationSection(EducationEntries(fd.education)))
    + SectionIf(|fd.skills| > 0, RenderSkills(fd.skills))
    + SectionIf(HasAnyLink(fd.personalInfo), LinksSection(Links(fd.personalInfo)))
  }

  /** The resume as the preview lays it out: the header, then the blocks. */
  function Render(fd: FormData): (doc: Document)
    ensures doc.header == RenderHeader(fd.personalInfo)
    ensures doc.sections == Sections(fd)
  {
    Document(RenderHeader(fd.personalInfo), Sections(fd))
  }

  /** The four optional blocks of a document. */
  lemma BlocksOfSections(fd: FormData)
    ensures InCanonicalOrder(Sections(fd))
    ensures HasSectionOfRank(Sections(fd), 0) <==> |fd.experience| > 0
    ensures HasSectionOfRank(Sections(fd), 1) <==> |fd.education| > 0
    ensures HasSectionOfRank(Sections(fd), 2) <==> |fd.skills| > 0
    ensures HasSectionOfRank(Sections(fd), 3) <==> HasAnyLink(fd.personalInfo)
  {
    FourBlocks(SectionIf(|fd.experience| > 0, ExperienceSection(ExperienceEntries(fd.experience))),
               SectionIf(|fd.education| > 0, EducationSection(EducationEntries(fd.education))),
               SectionIf(|fd.skills| > 0, RenderSkills(fd.skills)),
               SectionIf(HasAnyLink(fd.personalInfo), LinksSection(Links(fd.personalInfo))));
  }

  /** The blocks always come in the order experience, education, skills,
      links, so none shows twice. */
  lemma SectionsInOrder(fd: FormData)
    ensures InCanonicalOrder(Render(fd).sections)
  {
    BlocksOfSections(fd);
  }

  /** Each block shows exactly when it has something to show: experience,
      education and skills when their lists are non-empty, links when any
      address is set. */
  lemma SectionsAppearWhenNonEmpty(fd: FormData)
    ensures HasSectionOfRank(Render(fd).sections, 0) <==> |fd.experience| > 0
    ensures HasSectionOfRank(Render(fd).sections, 1) <==> |fd.education| > 0
    ensures HasSectionOfRank(Render(fd).sections, 2) <==> |fd.skills| > 0
    ensures HasSectionOfRank(Render(fd).sections, 3) <==> HasAnyLink(fd.personalInfo)
  {
    BlocksOfSections(fd);
  }

  /** Each block shows what its input lists: the experience block has the
      entries of ExperienceEntries (one per experience, in order), the
      education block likewise, the skills block the two columns, the links
      block the non-empty link row. */
  lemma BlocksFollowInput(fd: FormData, s: Section)
    requires s in Render(fd).sections
    ensures s.ExperienceSection? ==> s.experiences == ExperienceEntries(fd.experience)
    ensures s.EducationSection? ==> s.educations == EducationEntries(fd.education)
    ensures s.SkillsSection? ==> s == RenderSkills(fd.skills)
    ensures s.LinksSection? ==> s.links == Links(fd.personalInfo) && s.links != []
  {
    SectionsAreTheFourBlocks(fd);
  }

  /** Every block is one of the four the form data gives rise to. */
  lemma SectionsAreTheFourBlocks(fd: FormData)
    ensures forall s :: s in Sections(fd) ==>
              (s == ExperienceSection(ExperienceEntries(fd.experience))
               || s == EducationSection(EducationEntries(fd.education))
               || s == RenderSkills(fd.skills)
               || (s == LinksSection(Links(fd.personalInfo)) && HasAnyLink(fd.personalInfo)))
  {
    var a := SectionIf(|fd.experience| > 0, ExperienceSection(ExperienceEntries(fd.experience)));
    var b := SectionIf(|fd.education| > 0, EducationSection(EducationEntries(fd.education)));
    var c := SectionIf(|fd.skills| > 0, RenderSkills(fd.skills));
    var d := SectionIf(HasAnyLink(fd.personalInfo), LinksSection(Links(fd.personalInfo)));
    assert forall s :: s in Sections(fd) ==> s in a || s in b || s in c || s in d;
  }

  /** A form with no entries, no skills and no links renders the header
      alone, with the placeholders when name and title are empty. */
  lemma EmptyFormRendersHeaderOnly(fd: FormData)
    requires fd.experience == [] && fd.education == [] && fd.skills == []
    requires !HasAnyLink(fd.personalInfo)
    ensures Render(fd).sections == []
    ensures fd.personalInfo.fullName != [] ==> Render(fd).header.name == fd.personalInfo.fullName
    ensures fd.personalInfo.jobTitle != [] ==> Render(fd).header.title == fd.personalInfo.jobTitle
  {
  }
}
