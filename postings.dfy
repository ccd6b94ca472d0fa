/** A job posting as the scorer and the resume synthesizer see it: every field is
    text, and a field the input table lacks arrives as the empty string. */
module Postings {

  datatype Posting = Posting(
    url: string,
    title: string,
    company: string,
    description: string,
    location: string,
    salary: string)
}
