/**
  The resume document: contact fields, a summary, skills and ordered lists of
  experience and education entries, with the sample document the editor
  starts from.
*/
module ResumeModel {
  import opened Common

  /** One job: free-form labels (dates are not validated) and achievement bullets. */
  datatype Experience = Experience(company: string, role: string, start: string, end: string, bullets: seq<string>)

  /** One degree; `details` is optional and defaults to the empty list. */
  datatype Education = Education(institution: string, degree: string, start: string, end: string, details: Option<seq<string>>)

  datatype ResumeData = ResumeData(
    name: string,
    email: string,
    phone: string,
    location: string,
    website: Option<string>,
    summary: string,
    skills: seq<string>,
    experience: seq<Experience>,
    education: seq<Education>)

  /** Every string of a list is non-empty. */
  predicate AllNonEmpty(items: seq<string>) {
    forall i :: 0 <= i < |items| ==> items[i] != []
  }

  predicate ExperienceFilled(e: Experience) {
    e.company != [] && e.role != [] && e.start != [] && e.end != [] && AllNonEmpty(e.bullets)
  }

  predicate EducationFilled(e: Education) {
    e.institution != [] && e.degree != [] && e.start != [] && e.end != []
    && e.details.Some? && AllNonEmpty(e.details.value)
  }

  /** The document can be rendered without any user input: no string field is empty. */
  predicate Filled(d: ResumeData) {
    && d.name != [] && d.email != [] && d.phone != [] && d.location != []
    && d.website.Some? && d.website.value != []
    && d.summary != []
    && AllNonEmpty(d.skills)
    && (forall i :: 0 <= i < |d.experience| ==> ExperienceFilled(d.experience[i]))
    && (forall i :: 0 <= i < |d.education| ==> EducationFilled(d.education[i]))
  }

  /** `ResumeData()`: the sample document every new session starts from. */
  function DefaultResume(): (d: ResumeData)
    ensures Filled(d)
    ensures |d.skills| == 5 && |d.experience| == 2 && |d.education| == 2
  {
    ResumeData(
      "Ada Lovelace",
      "ada@example.com",
      "+1 (555) 123-4567",
      "Los Angeles, CA",
      Some("https://adalovelace.dev"),
      "Computing pioneer with a passion for elegant algorithms and practical impact.",
      ["Python", "C++", "Machine Learning", "Data Visualization", "Distributed Systems"],
      [ Experience("Analytical Engine Labs", "Software Engineer", "Jan 2023", "Present",
          [ "Designed data pipelines processing 10M+ events/day.",
            "Led migration to typed APIs, reducing defects by 30%." ]),
        Experience("Math & Poetry Co.", "Research Fellow", "Sep 2021", "Dec 2022",
          [ "Prototyped Bayesian models for sequence prediction.",
            "Published 2 papers; presented at NeurIPS workshop." ]) ],
      [ Education("USC", "M.S. Computer Science", "2023", "2025",
          Some(["GPA: 3.9/4.0", "Coursework: ML, Systems, NLP"])),
        Education("Caltech", "B.S. Mathematics", "2019", "2023",
          Some(["Honors in Pure Math", "Minor in CS"])) ])
  }
}
