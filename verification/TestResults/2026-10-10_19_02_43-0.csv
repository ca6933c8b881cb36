TestResult.DisplayName,TestResult.Outcome,TestResult.Duration,TestResult.ResourceCount,RandomSeed
Auth.EmptyEmailIs422 (well-formedness),Passed,00:00:00.7778900,287771,1
Auth.EmptyEmailIs422 (correctness),Passed,00:00:00.4687067,326025,1
Auth.EmptyEmailFailsValidation (correctness),Passed,00:00:00.3241386,195081,1
Auth.EmptyEmailFailsValidation (well-formedness),Passed,00:00:00.3093385,119571,1
