/** Element and attribute names of an XML report. */
module XmlNames {
  import opened Common
  import opened XmlScanner

  const DOCTEST_ELEMENT: Name := Ascii("doctest")
  const OPTIONS_ELEMENT: Name := Ascii("Options")
  const TEST_SUITE_ELEMENT: Name := Ascii("TestSuite")
  const TEST_CASE_ELEMENT: Name := Ascii("TestCase")
  const SUB_CASE_ELEMENT: Name := Ascii("SubCase")
  const EXPRESSION_ELEMENT: Name := Ascii("Expression")
  const MESSAGE_ELEMENT: Name := Ascii("Message")
  const ORIGINAL_ELEMENT: Name := Ascii("Original")
  const EXCEPTION_ELEMENT: Name := Ascii("Exception")
  const EXPECTED_EXCEPTION_ELEMENT: Name := Ascii("ExpectedException")
  const EXPECTED_EXCEPTION_STRING_ELEMENT: Name := Ascii("ExpectedExceptionString")
  const EXPANDED_ELEMENT: Name := Ascii("Expanded")
  const TEXT_ELEMENT: Name := Ascii("Text")
  const INFO_ELEMENT: Name := Ascii("Info")
  const OVERALL_RESULTS_ASSERTS_ELEMENT: Name := Ascii("OverallResultsAsserts")
  const OVERALL_RESULTS_TEST_CASES_ELEMENT: Name := Ascii("OverallResultsTestCases")

  const BINARY: Name := Ascii("binary")
  const VERSION: Name := Ascii("version")
  const ORDER_BY: Name := Ascii("order_by")
  const RAND_SEED: Name := Ascii("rand_seed")
  const FIRST: Name := Ascii("first")
  const LAST: Name := Ascii("last")
  const ABORT_AFTER: Name := Ascii("abort_after")
  const SUBCASE_FILTER_LEVELS: Name := Ascii("subcase_filter_levels")
  const CASE_SENSITIVE: Name := Ascii("case_sensitive")
  const NO_THROW: Name := Ascii("no_throw")
  const NO_SKIP: Name := Ascii("no_skip")
  const NAME: Name := Ascii("name")
  const FILENAME: Name := Ascii("filename")
  const LINE: Name := Ascii("line")
  const DESCRIPTION: Name := Ascii("description")
  const TIMEOUT: Name := Ascii("timeout")
  const MAY_FAIL: Name := Ascii("may_fail")
  const SHOULD_FAIL: Name := Ascii("should_fail")
  const SUCCESS: Name := Ascii("success")
  const SUCCESSES: Name := Ascii("successes")
  const FAILURES: Name := Ascii("failures")
  const EXPECTED_FAILURES: Name := Ascii("expected_failures")
  const SKIPPED: Name := Ascii("skipped")
  const TYPE: Name := Ascii("type")

  const TRUE_STRING: CString := "true"
}
