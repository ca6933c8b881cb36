TestResult.DisplayName,TestResult.Outcome,TestResult.Duration,TestResult.ResourceCount,RandomSeed
Auth.EmptyEmailFailsValidation (correctness),Failed,00:00:21.6193562,2118921,2
Auth.EmptyEmailIs422 (well-formedness),Passed,00:00:00.7829397,287750,2
Auth.EmptyEmailIs422 (correctness),Passed,00:00:00.4673932,323085,2
Auth.EmptyEmailFailsValidation (well-formedness),Passed,00:00:00.2411830,119550,2
